/** Ed25519 public keys as PEM text: the two writers of the client and its one reader. */
module Pem {
  import opened Wrappers
  import opened Bytes
  import opened SdkErrors
  import opened Text
  import opened Base64

  const HEADER := "-----BEGIN PUBLIC KEY-----"
  const FOOTER := "-----END PUBLIC KEY-----"
  const DASHES := "-----"

  /** The fixed head of an Ed25519 SubjectPublicKeyInfo. */
  const SPKI_PREFIX: seq<byte> := [0x30, 0x2a, 0x30, 0x05, 0x06, 0x03, 0x2b, 0x65, 0x70, 0x03, 0x21, 0x00]

  // ---- writers -----------------------------------------------------------------------------

  /** The encoded text in lines of at most 64 characters, each ended by a newline. */
  function Wrapped(encoded: string): string
    decreases |encoded|
  {
    if encoded == "" then ""
    else if |encoded| <= 64 then encoded + "\n"
    else encoded[..64] + "\n" + Wrapped(encoded[64..])
  }

  function WrappedPem(raw: seq<byte>): string {
    HEADER + "\n" + Wrapped(Encode(Standard, SPKI_PREFIX + raw)) + FOOTER + "\n"
  }

  /** The writer of the key cache pushes one chunk of 64 characters after another. */
  method WritePem(raw: seq<byte>) returns (pem: string)
    ensures pem == WrappedPem(raw)
  {
    var encoded := Encode(Standard, SPKI_PREFIX + raw);
    pem := HEADER + "\n";
    var start := 0;
    while start < |encoded|
      invariant start <= |encoded|
      invariant pem + Wrapped(encoded[start..]) == HEADER + "\n" + Wrapped(encoded)
    {
      var end := if start + 64 <= |encoded| then start + 64 else |encoded|;
      assert encoded[start..][..end - start] == encoded[start..end];
      assert encoded[start..][end - start..] == encoded[end..];
      assert Wrapped(encoded[start..]) == encoded[start..end] + "\n" + Wrapped(encoded[end..]);
      pem := pem + (encoded[start..end] + "\n");
      start := end;
    }
    assert pem == HEADER + "\n" + Wrapped(encoded);
    pem := pem + FOOTER + "\n";
  }

  /** The writer of the device keys puts everything on one line and adds no newline at the end. */
  function OneLinePem(raw: seq<byte>): string {
    HEADER + "\n" + Encode(Standard, SPKI_PREFIX + raw) + "\n" + FOOTER
  }

  // ---- reader ------------------------------------------------------------------------------

  function StripReturn(line: string): string {
    if line != "" && line[|line| - 1] == '\r' then line[..|line| - 1] else line
  }

  /** `str::lines`: lines end at a newline, with or without a carriage return before it; a last line
      needs no end. */
  function Lines(text: string): seq<string>
    decreases |text|
  {
    if text == "" then []
    else
      var n := UpTo(text, '\n');
      if n == |text| then [text] else [StripReturn(text[..n])] + Lines(text[n + 1..])
  }

  /** The lines that are not armour, joined. */
  function Undashed(lines: seq<string>): string {
    if lines == [] then ""
    else (if StartsWith(lines[0], DASHES) then "" else lines[0]) + Undashed(lines[1..])
  }

  function ParsePublicKey(text: string): Result<seq<byte>, SdkError> {
    var key := Trim(text);
    if StartsWith(key, HEADER) then
      var der := Decode(Standard, Undashed(Lines(key)));
      if der.None? || !StartsWith(der.value, SPKI_PREFIX) then Err(InvalidPublicKey)
      else Ok(der.value[|SPKI_PREFIX|..])
    else
      var raw := DecodeText(key);
      if raw.None? || |raw.value| != 32 then Err(InvalidPublicKey) else Ok(raw.value)
  }

  // ---- reading what was written ------------------------------------------------------------

  lemma FirstLine(line: string, rest: string)
    requires NewlineFree(line) && StripReturn(line) == line
    ensures Lines(line + "\n" + rest) == [line] + Lines(rest)
  {
    var text := line + "\n" + rest;
    UpToStops(line, '\n', rest);
    assert text[..|line|] == line && text[|line| + 1..] == rest;
  }

  lemma UndashedFirst(line: string, lines: seq<string>)
    ensures Undashed([line] + lines) == (if StartsWith(line, DASHES) then "" else line) + Undashed(lines)
  {
    assert ([line] + lines)[1..] == lines;
  }

  predicate IsBody(encoded: string) {
    IsSpaceFree(encoded) && forall i | 0 <= i < |encoded| :: encoded[i] != '-'
  }

  /** A last line of armour contributes nothing. */
  lemma LastDashedLine(line: string)
    requires line != "" && NewlineFree(line) && StartsWith(line, DASHES)
    ensures Undashed(Lines(line)) == ""
  {
    UpToStops(line, '\n', "");
    assert Lines(line) == [line] == [line] + [];
    UndashedFirst(line, []);
  }

  lemma ArmourIsDashed()
    ensures StartsWith(HEADER, DASHES) && NewlineFree(HEADER) && StripReturn(HEADER) == HEADER
    ensures StartsWith(FOOTER, DASHES) && NewlineFree(FOOTER) && FOOTER != ""
  {
    assert HEADER[..5] == DASHES && FOOTER[..5] == DASHES;
  }

  /** One body line followed by more text. */
  lemma BodyLineKept(line: string, rest: string)
    requires IsBody(line) && line != ""
    ensures Undashed(Lines(line + "\n" + rest)) == line + Undashed(Lines(rest))
  {
    FirstLine(line, rest);
    UndashedFirst(line, Lines(rest));
    assert DASHES[0] == '-';
    assert |line| >= 5 ==> line[..5][0] == line[0];
  }

  lemma {:induction false} WrappedIsRejoined(encoded: string, tail: string)
    requires IsBody(encoded) && Undashed(Lines(tail)) == ""
    ensures Undashed(Lines(Wrapped(encoded) + tail)) == encoded
    decreases |encoded|
  {
    if encoded == "" {
      assert Wrapped(encoded) + tail == tail;
    } else if |encoded| <= 64 {
      BodyLineKept(encoded, tail);
    } else {
      var line, rest := encoded[..64], encoded[64..];
      WrappedIsRejoined(rest, tail);
      Grouped(line, "\n", Wrapped(rest), tail);
      BodyLineKept(line, Wrapped(rest) + tail);
      assert encoded == line + rest;
    }
  }

  /** A line of armour goes, whatever follows. */
  lemma DashedLineDropped(line: string, rest: string)
    requires NewlineFree(line) && StripReturn(line) == line && StartsWith(line, DASHES)
    ensures Undashed(Lines(line + "\n" + rest)) == Undashed(Lines(rest))
  {
    FirstLine(line, rest);
    UndashedFirst(line, Lines(rest));
  }

  /** Any text between header and footer that rejoins to an encoding is read as that encoding. */
  lemma ArmouredTextIsRead(text: string, raw: seq<byte>)
    requires StartsWith(Trim(text), HEADER)
    requires Undashed(Lines(Trim(text))) == Encode(Standard, SPKI_PREFIX + raw)
    ensures ParsePublicKey(text) == Ok(raw)
  {
    DecodesWhatItEncodes(Standard, SPKI_PREFIX + raw);
    assert (SPKI_PREFIX + raw)[..|SPKI_PREFIX|] == SPKI_PREFIX;
    assert (SPKI_PREFIX + raw)[|SPKI_PREFIX|..] == raw;
  }

  lemma TrimDropsNewline(text: string)
    requires text != "" && !IsWhitespace(text[0]) && !IsWhitespace(text[|text| - 1])
    ensures Trim(text + "\n") == text
  {
    var longer := text + "\n";
    assert longer[0] == text[0] && TrimStart(longer) == longer;
    assert longer[|longer| - 1] == '\n' && longer[..|longer| - 1] == text;
    assert TrimEnd(text) == text;
  }

  lemma Grouped(a: string, b: string, c: string, d: string)
    ensures a + b + c + d == a + b + (c + d) == a + (b + c) + d
  {
  }

  /** What stands between header and footer decides what is read, with or without a last newline. */
  lemma ArmourIsRead(body: string, raw: seq<byte>, key: string)
    requires Undashed(Lines(body + FOOTER)) == Encode(Standard, SPKI_PREFIX + raw)
    requires key == HEADER + "\n" + (body + FOOTER)
    ensures ParsePublicKey(key) == Ok(raw) && ParsePublicKey(key + "\n") == Ok(raw)
  {
    assert key[0] == HEADER[0] == '-' && key[|key| - 1] == FOOTER[|FOOTER| - 1] == '-';
    TrimDropsNewline(key);
    TrimKeeps(key);
    assert key[..|HEADER|] == HEADER;
    ArmourIsDashed();
    DashedLineDropped(HEADER, body + FOOTER);
    ArmouredTextIsRead(key, raw);
    ArmouredTextIsRead(key + "\n", raw);
  }

  /** For every byte string, the key read from the wrapped PEM is the key that was written. */
  lemma WrappedPemIsRead(raw: seq<byte>)
    ensures ParsePublicKey(WrappedPem(raw)) == Ok(raw)
  {
    var encoded := Encode(Standard, SPKI_PREFIX + raw);
    EncodingsAreSpaceFree(Standard, SPKI_PREFIX + raw);
    ArmourIsDashed();
    LastDashedLine(FOOTER);
    WrappedIsRejoined(encoded, FOOTER);
    ArmourIsRead(Wrapped(encoded), raw, HEADER + "\n" + (Wrapped(encoded) + FOOTER));
    Grouped(HEADER, "\n", Wrapped(encoded), FOOTER);
  }

  lemma OneLineLayout(header: string, body: string, footer: string)
    ensures header + "\n" + body + "\n" + footer == header + "\n" + (body + "\n" + footer)
  {
  }

  lemma OneLineIsRejoined(encoded: string, tail: string)
    requires IsBody(encoded) && encoded != "" && Undashed(Lines(tail)) == ""
    ensures Undashed(Lines(encoded + "\n" + tail)) == encoded
  {
    BodyLineKept(encoded, tail);
    assert encoded + "" == encoded;
  }

  lemma EncodingIsBody(data: seq<byte>)
    requires data != []
    ensures IsBody(Encode(Standard, data)) && Encode(Standard, data) != ""
  {
    EncodingsAreSpaceFree(Standard, data);
  }

  lemma OneLineIsRead(data: seq<byte>, raw: seq<byte>, encoded: string)
    requires data == SPKI_PREFIX + raw && encoded == Encode(Standard, data)
    requires IsBody(encoded) && encoded != "" && Undashed(Lines(FOOTER)) == ""
    ensures ParsePublicKey(HEADER + "\n" + encoded + "\n" + FOOTER) == Ok(raw)
  {
    OneLineIsRejoined(encoded, FOOTER);
    OneLineLayout(HEADER, encoded, FOOTER);
    ArmourIsRead(encoded + "\n", raw, HEADER + "\n" + encoded + "\n" + FOOTER);
  }

  /** And likewise from the one-line PEM. */
  lemma OneLinePemIsRead(raw: seq<byte>)
    ensures ParsePublicKey(OneLinePem(raw)) == Ok(raw)
  {
    var data := SPKI_PREFIX + raw;
    EncodingIsBody(data);
    ArmourIsDashed();
    LastDashedLine(FOOTER);
    OneLineIsRead(data, raw, Encode(Standard, data));
  }

  /** A bare key of 32 bytes is read from either base64 form. */
  lemma BareKeyIsRead(v: Variant, raw: seq<byte>)
    requires |raw| == 32
    ensures ParsePublicKey(Encode(v, raw)) == Ok(raw)
  {
    var text := Encode(v, raw);
    EncodingsAreSpaceFree(v, raw);
    TrimKeeps(text);
    EitherVariantIsRead(v, raw);
    assert HEADER[10] == ' ';
    assert |text| >= |HEADER| ==> text[..|HEADER|][10] == text[10];
  }

  // ---- the layout of what is written -----------------------------------------------------------------

  lemma LinesOfWrapped(encoded: string)
    requires NewlineFree(encoded) && Lacks(encoded, '\r') && encoded != ""
    ensures |encoded| <= 64 ==> Lines(Wrapped(encoded)) == [encoded]
    ensures |encoded| > 64 ==> Lines(Wrapped(encoded)) == [encoded[..64]] + Lines(Wrapped(encoded[64..]))
  {
    if |encoded| <= 64 {
      FirstLine(encoded, "");
      assert encoded + "\n" + "" == Wrapped(encoded);
    } else {
      FirstLine(encoded[..64], Wrapped(encoded[64..]));
    }
  }

  function Joined(lines: seq<string>): string {
    if lines == [] then "" else lines[0] + Joined(lines[1..])
  }

  /** `text` cut into lines of 64 characters, of which only the last may be shorter. */
  predicate InLines(text: string, lines: seq<string>) {
    && lines != [] && Joined(lines) == text
    && (forall i | 0 <= i < |lines| - 1 :: |lines[i]| == 64)
    && 1 <= |lines[|lines| - 1]| <= 64
  }

  lemma OneMoreLine(line: string, text: string, lines: seq<string>)
    requires |line| == 64 && InLines(text, lines)
    ensures InLines(line + text, [line] + lines)
  {
    assert ([line] + lines)[1..] == lines;
  }

  lemma {:induction false} WrappedIsInLines(encoded: string)
    requires NewlineFree(encoded) && Lacks(encoded, '\r') && encoded != ""
    ensures InLines(encoded, Lines(Wrapped(encoded)))
    decreases |encoded|
  {
    LinesOfWrapped(encoded);
    if |encoded| <= 64 {
      assert Joined([encoded]) == encoded + Joined([encoded][1..]) == encoded;
    } else {
      WrappedIsInLines(encoded[64..]);
      OneMoreLine(encoded[..64], encoded[64..], Lines(Wrapped(encoded[64..])));
      assert encoded == encoded[..64] + encoded[64..];
    }
  }

  /** The DER form of a public key: the fixed head of 12 bytes and the key. */
  function Der(raw: seq<byte>): seq<byte> {
    [48, 42, 48, 5, 6, 3, 43, 101, 112, 3, 33, 0] + raw
  }

  /** The wrapped PEM is the base64 form of the key in lines of 64 characters between the two lines of armour,
      each line with its newline. */
  lemma WrappedPemLayout(raw: seq<byte>)
    ensures var body := Wrapped(Encode(Standard, Der(raw)));
      && WrappedPem(raw) == "-----BEGIN PUBLIC KEY-----\n" + body + "-----END PUBLIC KEY-----\n"
      && InLines(Encode(Standard, Der(raw)), Lines(body))
      && body != "" && body[|body| - 1] == '\n' && Lacks(body, '\r')
  {
    var encoded := Encode(Standard, Der(raw));
    EncodingsAreSpaceFree(Standard, Der(raw));
    EncodingIsBody(Der(raw));
    WrappedIsInLines(encoded);
    WrappedEndsWithNewline(encoded);
  }

  lemma {:induction false} WrappedEndsWithNewline(encoded: string)
    requires encoded != ""
    ensures Wrapped(encoded) != "" && Wrapped(encoded)[|Wrapped(encoded)| - 1] == '\n'
    ensures Lacks(encoded, '\r') ==> Lacks(Wrapped(encoded), '\r')
    decreases |encoded|
  {
    if |encoded| > 64 {
      WrappedEndsWithNewline(encoded[64..]);
    }
  }

  /** The one-line PEM has no newline at its end. */
  lemma OneLinePemLayout(raw: seq<byte>)
    ensures OneLinePem(raw)
         == "-----BEGIN PUBLIC KEY-----\n" + Encode(Standard, Der(raw)) + "\n-----END PUBLIC KEY-----"
  {
  }

  // ---- what is read ---------------------------------------------------------------------------------

  /** A text is a key exactly when it is an armoured DER form of the key, or its 32 bytes in base64. */
  lemma ReadsKeyIff(text: string, raw: seq<byte>)
    ensures ParsePublicKey(text) == Ok(raw) <==>
      if StartsWith(Trim(text), "-----BEGIN PUBLIC KEY-----")
      then Decode(Standard, Undashed(Lines(Trim(text)))) == Some(Der(raw))
      else DecodeText(Trim(text)) == Some(raw) && |raw| == 32
    ensures ParsePublicKey(text).Err? ==> ParsePublicKey(text) == Err(InvalidPublicKey)
  {
    assert Der(raw)[..12] == SPKI_PREFIX && Der(raw)[12..] == raw;
    var der := Decode(Standard, Undashed(Lines(Trim(text))));
    if der.Some? && StartsWith(der.value, SPKI_PREFIX) {
      assert der.value == SPKI_PREFIX + der.value[12..];
    }
  }
}
