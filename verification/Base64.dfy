/** Base64 in the two forms the client reads: the standard alphabet with padding (section 4 of
    RFC 4648) and the URL-safe alphabet without it (section 5). Decoding is strict: padding must be
    canonical and unused bits must be zero. */
module Base64 {
  import opened Wrappers
  import opened Bytes
  import opened Text

  datatype Variant = Standard | UrlSafeNoPad

  type sextet = x: int | 0 <= x < 64

  function CharOf(v: Variant, n: sextet): char {
    if n < 26 then 'A' + n as char
    else if n < 52 then 'a' + (n - 26) as char
    else if n < 62 then '0' + (n - 52) as char
    else if n == 62 then (if v.Standard? then '+' else '-')
    else if v.Standard? then '/' else '_'
  }

  function ValueOf(v: Variant, c: char): Option<sextet> {
    if 'A' <= c <= 'Z' then Some(c as int - 'A' as int)
    else if 'a' <= c <= 'z' then Some(c as int - 'a' as int + 26)
    else if '0' <= c <= '9' then Some(c as int - '0' as int + 52)
    else if c == (if v.Standard? then '+' else '-') then Some(62)
    else if c == (if v.Standard? then '/' else '_') then Some(63)
    else None
  }

  /** Tables 1 and 2 of RFC 4648. */
  lemma AlphabetIs(v: Variant, n: sextet)
    ensures CharOf(v, n)
         == if n < 26 then CAPITAL[n]
            else if n < 52 then SMALL[n - 26]
            else if n < 62 then DIGITS[n - 52]
            else (if v.Standard? then "+/" else "-_")[n - 62]
  {
  }

  lemma ValueOfChar(v: Variant, n: sextet)
    ensures ValueOf(v, CharOf(v, n)) == Some(n)
  {
  }

  lemma CharOfValue(v: Variant, c: char)
    requires ValueOf(v, c).Some?
    ensures CharOf(v, ValueOf(v, c).value) == c
  {
  }

  /** Characters that both alphabets know mean the same in both. */
  lemma AlphabetsAgree(c: char)
    requires ValueOf(Standard, c).Some? && ValueOf(UrlSafeNoPad, c).Some?
    ensures ValueOf(Standard, c) == ValueOf(UrlSafeNoPad, c)
  {
  }

  // Four sextets hold three octets.

  function S0(a: byte): sextet { a / 4 }
  function S1(a: byte, b: byte): sextet { a % 4 * 16 + b / 16 }
  function S2(b: byte, c: byte): sextet { b % 16 * 4 + c / 64 }
  function S3(c: byte): sextet { c % 64 }

  function O0(w: sextet, x: sextet): byte { w * 4 + x / 16 }
  function O1(x: sextet, y: sextet): byte { x % 16 * 16 + y / 4 }
  function O2(y: sextet, z: sextet): byte { y % 4 * 64 + z }

  lemma OctetsOfSextets(a: byte, b: byte, c: byte)
    ensures O0(S0(a), S1(a, b)) == a && O1(S1(a, b), S2(b, c)) == b && O2(S2(b, c), S3(c)) == c
    ensures S1(a, 0) % 16 == 0 && S2(b, 0) % 4 == 0
  {
  }

  lemma FirstSextets(w: sextet, x: sextet)
    ensures S0(O0(w, x)) == w && O0(w, x) % 4 == x / 16
  {
    assert O0(w, x) == 4 * w + x / 16 && 0 <= x / 16 < 4;
  }

  lemma MiddleOctet(x: sextet, y: sextet)
    ensures O1(x, y) / 16 == x % 16 && O1(x, y) % 16 == y / 4
  {
    assert O1(x, y) == 16 * (x % 16) + y / 4 && 0 <= y / 4 < 16;
  }

  lemma LastOctet(y: sextet, z: sextet)
    ensures O2(y, z) / 64 == y % 4 && S3(O2(y, z)) == z
  {
    assert O2(y, z) == 64 * (y % 4) + z;
  }

  lemma SextetsOfOctets(w: sextet, x: sextet, y: sextet, z: sextet)
    ensures S0(O0(w, x)) == w && S1(O0(w, x), O1(x, y)) == x
    ensures S2(O1(x, y), O2(y, z)) == y && S3(O2(y, z)) == z
    ensures x % 16 == 0 ==> S1(O0(w, x), 0) == x
    ensures y % 4 == 0 ==> S2(O1(x, y), 0) == y
  {
    FirstSextets(w, x);
    MiddleOctet(x, y);
    LastOctet(y, z);
    assert x == x / 16 * 16 + x % 16;
    assert y == y / 4 * 4 + y % 4;
  }

  function Padding(v: Variant, n: nat): string {
    if v.UrlSafeNoPad? then "" else if n == 1 then "=" else "=="
  }

  function EncodeTwo(v: Variant, a: byte): string {
    [CharOf(v, S0(a)), CharOf(v, S1(a, 0))]
  }

  function EncodeThree(v: Variant, a: byte, b: byte): string {
    [CharOf(v, S0(a)), CharOf(v, S1(a, b)), CharOf(v, S2(b, 0))]
  }

  function EncodeGroup(v: Variant, a: byte, b: byte, c: byte): string {
    [CharOf(v, S0(a)), CharOf(v, S1(a, b)), CharOf(v, S2(b, c)), CharOf(v, S3(c))]
  }

  function Encode(v: Variant, data: seq<byte>): string
    decreases |data|
  {
    if data == [] then ""
    else if |data| == 1 then EncodeTwo(v, data[0]) + Padding(v, 2)
    else if |data| == 2 then EncodeThree(v, data[0], data[1]) + Padding(v, 1)
    else EncodeGroup(v, data[0], data[1], data[2]) + Encode(v, data[3..])
  }

  /** The length of an encoding: with padding, full groups of four; without, as many characters as the bits
      need. */
  lemma {:induction false} EncodedLength(v: Variant, data: seq<byte>)
    ensures |Encode(v, data)| == if v.Standard? then (|data| + 2) / 3 * 4 else (8 * |data| + 5) / 6
    decreases |data|
  {
    if |data| > 2 {
      EncodedLength(v, data[3..]);
      OneMoreGroup(|data| - 3);
    }
  }

  lemma OneMoreGroup(n: nat)
    ensures (n + 3 + 2) / 3 * 4 == (n + 2) / 3 * 4 + 4 && (8 * (n + 3) + 5) / 6 == (8 * n + 5) / 6 + 4
  {
  }

  /** Some of the test vectors of section 10 of RFC 4648. */
  lemma TestVectors()
    ensures Encode(Standard, [0x66]) == "Zg==" && Encode(UrlSafeNoPad, [0x66]) == "Zg"
    ensures Encode(Standard, [0x66, 0x6f]) == "Zm8=" && Encode(UrlSafeNoPad, [0x66, 0x6f]) == "Zm8"
    ensures Encode(Standard, [0x66, 0x6f, 0x6f, 0x62]) == "Zm9vYg=="
  {
    assert [0x66, 0x6f, 0x6f, 0x62][3..] == [0x62];
  }

  function DecodeTwo(v: Variant, c0: char, c1: char): Option<seq<byte>> {
    var w :- ValueOf(v, c0);
    var x :- ValueOf(v, c1);
    if x % 16 != 0 then None else Some([O0(w, x)])
  }

  function DecodeThree(v: Variant, c0: char, c1: char, c2: char): Option<seq<byte>> {
    var w :- ValueOf(v, c0);
    var x :- ValueOf(v, c1);
    var y :- ValueOf(v, c2);
    if y % 4 != 0 then None else Some([O0(w, x), O1(x, y)])
  }

  function DecodeGroup(v: Variant, c0: char, c1: char, c2: char, c3: char): Option<seq<byte>> {
    var w :- ValueOf(v, c0);
    var x :- ValueOf(v, c1);
    var y :- ValueOf(v, c2);
    var z :- ValueOf(v, c3);
    Some([O0(w, x), O1(x, y), O2(y, z)])
  }

  function Decode(v: Variant, text: string): Option<seq<byte>>
    decreases |text|
  {
    if text == "" then Some([])
    else if v.Standard? && |text| == 4 && text[2] == '=' && text[3] == '=' then DecodeTwo(v, text[0], text[1])
    else if v.Standard? && |text| == 4 && text[3] == '=' then DecodeThree(v, text[0], text[1], text[2])
    else if v.UrlSafeNoPad? && |text| == 2 then DecodeTwo(v, text[0], text[1])
    else if v.UrlSafeNoPad? && |text| == 3 then DecodeThree(v, text[0], text[1], text[2])
    else if |text| < 4 then None
    else
      var group :- DecodeGroup(v, text[0], text[1], text[2], text[3]);
      var rest :- Decode(v, text[4..]);
      Some(group + rest)
  }

  // ---- round trips -------------------------------------------------------------------------

  lemma TwoCharsDecode(v: Variant, w: sextet, x: sextet)
    requires x % 16 == 0
    ensures DecodeTwo(v, CharOf(v, w), CharOf(v, x)) == Some([O0(w, x)])
  {
    ValueOfChar(v, w);
    ValueOfChar(v, x);
  }

  lemma ThreeCharsDecode(v: Variant, w: sextet, x: sextet, y: sextet)
    requires y % 4 == 0
    ensures DecodeThree(v, CharOf(v, w), CharOf(v, x), CharOf(v, y)) == Some([O0(w, x), O1(x, y)])
  {
    ValueOfChar(v, w);
    ValueOfChar(v, x);
    ValueOfChar(v, y);
  }

  lemma FourCharsDecode(v: Variant, w: sextet, x: sextet, y: sextet, z: sextet)
    ensures DecodeGroup(v, CharOf(v, w), CharOf(v, x), CharOf(v, y), CharOf(v, z))
         == Some([O0(w, x), O1(x, y), O2(y, z)])
  {
    ValueOfChar(v, w);
    ValueOfChar(v, x);
    ValueOfChar(v, y);
    ValueOfChar(v, z);
  }

  lemma TwoRoundTrip(v: Variant, a: byte)
    ensures var t := EncodeTwo(v, a); DecodeTwo(v, t[0], t[1]) == Some([a])
  {
    OctetsOfSextets(a, 0, 0);
    TwoCharsDecode(v, S0(a), S1(a, 0));
  }

  lemma ThreeRoundTrip(v: Variant, a: byte, b: byte)
    ensures var t := EncodeThree(v, a, b); DecodeThree(v, t[0], t[1], t[2]) == Some([a, b])
  {
    OctetsOfSextets(a, b, 0);
    ThreeCharsDecode(v, S0(a), S1(a, b), S2(b, 0));
  }

  lemma GroupRoundTrip(v: Variant, a: byte, b: byte, c: byte)
    ensures var t := EncodeGroup(v, a, b, c); DecodeGroup(v, t[0], t[1], t[2], t[3]) == Some([a, b, c])
  {
    OctetsOfSextets(a, b, c);
    FourCharsDecode(v, S0(a), S1(a, b), S2(b, c), S3(c));
  }

  lemma NoPaddingChar(v: Variant, n: sextet)
    ensures CharOf(v, n) != '=' && !IsWhitespace(CharOf(v, n))
    ensures v.Standard? ==> CharOf(v, n) != '-'
  {
  }

  /** Every byte string comes back from its encoding, in either variant. */
  lemma {:induction false} DecodesWhatItEncodes(v: Variant, data: seq<byte>)
    ensures Decode(v, Encode(v, data)) == Some(data)
    decreases |data|
  {
    if 1 <= |data| <= 2 {
      ShortRoundTrip(v, data);
    } else if |data| > 2 {
      GroupRoundTrip(v, data[0], data[1], data[2]);
      NoPaddingChar(v, S3(data[2]));
      DecodesWhatItEncodes(v, data[3..]);
      GroupDecodes(v, EncodeGroup(v, data[0], data[1], data[2]), Encode(v, data[3..]));
      assert data == [data[0], data[1], data[2]] + data[3..];
    }
  }

  lemma ShortRoundTrip(v: Variant, data: seq<byte>)
    requires 1 <= |data| <= 2
    ensures Decode(v, Encode(v, data)) == Some(data)
  {
    if |data| == 1 {
      TwoRoundTrip(v, data[0]);
      TailDecodes(v, EncodeTwo(v, data[0]));
      assert data == [data[0]];
    } else {
      ThreeRoundTrip(v, data[0], data[1]);
      NoPaddingChar(v, S2(data[1], 0));
      TailDecodes(v, EncodeThree(v, data[0], data[1]));
      assert data == [data[0], data[1]];
    }
  }

  lemma TailDecodes(v: Variant, tail: string)
    requires |tail| == 2 || (|tail| == 3 && tail[2] != '=')
    ensures Decode(v, tail + Padding(v, 4 - |tail|))
         == if |tail| == 2 then DecodeTwo(v, tail[0], tail[1]) else DecodeThree(v, tail[0], tail[1], tail[2])
  {
  }

  lemma GroupDecodes(v: Variant, group: string, rest: string)
    requires |group| == 4 && group[3] != '='
    requires DecodeGroup(v, group[0], group[1], group[2], group[3]).Some? && Decode(v, rest).Some?
    ensures Decode(v, group + rest)
         == Some(DecodeGroup(v, group[0], group[1], group[2], group[3]).value + Decode(v, rest).value)
  {
    assert (group + rest)[4..] == rest;
  }

  lemma TwoSextets(w: sextet, x: sextet)
    requires x % 16 == 0
    ensures S0(O0(w, x)) == w && S1(O0(w, x), 0) == x
  {
    FirstSextets(w, x);
    assert x == x / 16 * 16;
  }

  lemma TwoBack(v: Variant, c0: char, c1: char)
    requires DecodeTwo(v, c0, c1).Some?
    ensures var d := DecodeTwo(v, c0, c1).value; |d| == 1 && EncodeTwo(v, d[0]) == [c0, c1]
  {
    TwoSextets(ValueOf(v, c0).value, ValueOf(v, c1).value);
    CharOfValue(v, c0);
    CharOfValue(v, c1);
  }

  lemma ThreeBack(v: Variant, c0: char, c1: char, c2: char)
    requires DecodeThree(v, c0, c1, c2).Some?
    ensures var d := DecodeThree(v, c0, c1, c2).value; |d| == 2 && EncodeThree(v, d[0], d[1]) == [c0, c1, c2]
  {
    SextetsOfOctets(ValueOf(v, c0).value, ValueOf(v, c1).value, ValueOf(v, c2).value, 0);
    CharOfValue(v, c0);
    CharOfValue(v, c1);
    CharOfValue(v, c2);
  }

  lemma GroupBack(v: Variant, c0: char, c1: char, c2: char, c3: char)
    requires DecodeGroup(v, c0, c1, c2, c3).Some?
    ensures var d := DecodeGroup(v, c0, c1, c2, c3).value;
      |d| == 3 && EncodeGroup(v, d[0], d[1], d[2]) == [c0, c1, c2, c3]
  {
    SextetsOfOctets(ValueOf(v, c0).value, ValueOf(v, c1).value, ValueOf(v, c2).value, ValueOf(v, c3).value);
    CharOfValue(v, c0);
    CharOfValue(v, c1);
    CharOfValue(v, c2);
    CharOfValue(v, c3);
  }

  /** Decoding accepts nothing but encodings: each byte string has one text. */
  lemma {:induction false} EncodesWhatItDecodes(v: Variant, text: string)
    requires Decode(v, text).Some?
    ensures Encode(v, Decode(v, text).value) == text
    decreases |text|
  {
    if text == "" {
    } else if IsTail(v, text) {
      TailEncodes(v, text);
    } else {
      EncodesWhatItDecodes(v, text[4..]);
      GroupEncodes(v, text);
    }
  }

  lemma GroupEncodes(v: Variant, text: string)
    requires |text| >= 4 && !IsTail(v, text) && Decode(v, text).Some?
    requires Encode(v, Decode(v, text[4..]).value) == text[4..]
    ensures Encode(v, Decode(v, text).value) == text
  {
    GroupBack(v, text[0], text[1], text[2], text[3]);
    var group, rest := DecodeGroup(v, text[0], text[1], text[2], text[3]).value, Decode(v, text[4..]).value;
    GroupText(v, group, rest, text);
  }

  lemma GroupText(v: Variant, group: seq<byte>, rest: seq<byte>, text: string)
    requires |text| >= 4 && |group| == 3 && Encode(v, rest) == text[4..]
    requires EncodeGroup(v, group[0], group[1], group[2]) == [text[0], text[1], text[2], text[3]]
    ensures Encode(v, group + rest) == text
  {
    GroupThenRest(v, group, rest);
    assert text == [text[0], text[1], text[2], text[3]] + text[4..];
  }

  /** A last group of two or three characters, with its padding. */
  predicate IsTail(v: Variant, text: string) {
    if v.Standard? then |text| == 4 && text[3] == '=' else |text| in {2, 3}
  }

  lemma TailEncodes(v: Variant, text: string)
    requires IsTail(v, text) && Decode(v, text).Some?
    ensures Encode(v, Decode(v, text).value) == text
  {
    if |text| == 2 || (v.Standard? && text[2] == '=') {
      TwoBack(v, text[0], text[1]);
      assert text == [text[0], text[1]] + Padding(v, 2);
    } else {
      ThreeBack(v, text[0], text[1], text[2]);
      assert text == [text[0], text[1], text[2]] + Padding(v, 1);
    }
  }

  lemma GroupThenRest(v: Variant, group: seq<byte>, rest: seq<byte>)
    requires |group| == 3
    ensures Encode(v, group + rest) == EncodeGroup(v, group[0], group[1], group[2]) + Encode(v, rest)
  {
    assert (group + rest)[3..] == rest;
  }

  /** A text that both variants decode means the same bytes in both. */
  lemma {:induction false} VariantsAgree(text: string)
    requires Decode(Standard, text).Some? && Decode(UrlSafeNoPad, text).Some?
    ensures Decode(Standard, text) == Decode(UrlSafeNoPad, text)
    decreases |text|
  {
    if text != "" {
      AlphabetsAgree(text[0]);
      AlphabetsAgree(text[1]);
      AlphabetsAgree(text[2]);
      AlphabetsAgree(text[3]);
      VariantsAgree(text[4..]);
    }
  }

  // ---- reading either variant --------------------------------------------------------------

  /** `decode_base64_text`: the URL-safe form first, the standard form if that fails. */
  function DecodeText(text: string): Option<seq<byte>> {
    var first := Decode(UrlSafeNoPad, Trim(text));
    if first.Some? then first else Decode(Standard, Trim(text))
  }

  predicate IsSpaceFree(text: string) {
    forall i | 0 <= i < |text| :: !IsWhitespace(text[i])
  }

  lemma {:induction false} EncodingsAreSpaceFree(v: Variant, data: seq<byte>)
    ensures IsSpaceFree(Encode(v, data))
    ensures v.Standard? ==> forall i | 0 <= i < |Encode(v, data)| :: Encode(v, data)[i] != '-'
    decreases |data|
  {
    if |data| == 1 {
      NoPaddingChar(v, S0(data[0]));
      NoPaddingChar(v, S1(data[0], 0));
    } else if |data| == 2 {
      NoPaddingChar(v, S0(data[0]));
      NoPaddingChar(v, S1(data[0], data[1]));
      NoPaddingChar(v, S2(data[1], 0));
    } else if |data| > 2 {
      NoPaddingChar(v, S0(data[0]));
      NoPaddingChar(v, S1(data[0], data[1]));
      NoPaddingChar(v, S2(data[1], data[2]));
      NoPaddingChar(v, S3(data[2]));
      EncodingsAreSpaceFree(v, data[3..]);
    }
  }

  /** Whichever variant wrote a byte string, the fallback reader recovers it. */
  lemma EitherVariantIsRead(v: Variant, data: seq<byte>)
    ensures DecodeText(Encode(v, data)) == Some(data)
  {
    var text := Encode(v, data);
    EncodingsAreSpaceFree(v, data);
    TrimKeeps(text);
    DecodesWhatItEncodes(v, data);
    if v.Standard? && Decode(UrlSafeNoPad, text).Some? {
      VariantsAgree(text);
    }
  }
}
