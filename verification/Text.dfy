/** The few properties of text on which the validators rely. Case mapping is that of ASCII. */
module Text {

  /** Unicode White_Space, as Rust's `char::is_whitespace` has it. */
  predicate IsWhitespace(c: char) {
    || '\t' <= c <= '\r' || c == ' ' || c == '\U{85}' || c == '\U{A0}' || c == '\U{1680}'
    || '\U{2000}' <= c <= '\U{200A}' || c == '\U{2028}' || c == '\U{2029}' || c == '\U{202F}'
    || c == '\U{205F}' || c == '\U{3000}'
  }

  /** The 25 code points of the Unicode table. */
  const WHITE_SPACE :=
    {9, 10, 11, 12, 13, 32, 133, 160, 5760, 8192, 8193, 8194, 8195, 8196, 8197, 8198, 8199, 8200, 8201, 8202,
     8232, 8233, 8239, 8287, 12288}

  lemma WhitespaceIs(c: char)
    ensures IsWhitespace(c) <==> c as int in WHITE_SPACE
  {
  }

  function TrimStart(text: string): string {
    if text != [] && IsWhitespace(text[0]) then TrimStart(text[1..]) else text
  }

  function TrimEnd(text: string): string {
    if text != [] && IsWhitespace(text[|text| - 1]) then TrimEnd(text[..|text| - 1]) else text
  }

  function Trim(text: string): string {
    TrimEnd(TrimStart(text))
  }

  predicate IsBlank(text: string) {
    forall i | 0 <= i < |text| :: IsWhitespace(text[i])
  }

  predicate HasWhitespace(text: string) {
    exists i | 0 <= i < |text| :: IsWhitespace(text[i])
  }

  predicate StartsWith<T(==)>(text: seq<T>, prefix: seq<T>) {
    |prefix| <= |text| && text[..|prefix|] == prefix
  }

  /** The number that a run of decimal digits writes. */
  function DigitsValue(text: string): int
    decreases |text|
  {
    if text == "" then 0 else 10 * DigitsValue(text[..|text| - 1]) + (text[|text| - 1] as int - '0' as int)
  }

  predicate Lacks(text: string, c: char) {
    forall i | 0 <= i < |text| :: text[i] != c
  }

  predicate NewlineFree(text: string) {
    Lacks(text, '\n')
  }

  lemma {:induction false} TrimStartCuts(text: string) returns (k: nat)
    ensures k <= |text| && TrimStart(text) == text[k..] && (k < |text| ==> !IsWhitespace(text[k]))
    ensures IsBlank(text[..k])
    decreases |text|
  {
    if text != [] && IsWhitespace(text[0]) {
      k := TrimStartCuts(text[1..]);
      k := k + 1;
      assert text[1..][..k - 1] == text[1..k];
      assert text[..k] == [text[0]] + text[1..k];
    } else {
      k := 0;
    }
  }

  lemma {:induction false} TrimEndCuts(text: string) returns (k: nat)
    ensures k <= |text| && TrimEnd(text) == text[..k] && (k > 0 ==> !IsWhitespace(text[k - 1]))
    ensures IsBlank(text[k..])
    decreases |text|
  {
    if text != [] && IsWhitespace(text[|text| - 1]) {
      k := TrimEndCuts(text[..|text| - 1]);
      assert text[k..] == text[..|text| - 1][k..] + [text[|text| - 1]];
    } else {
      k := |text|;
    }
  }

  /** A text is empty after trimming exactly when it holds nothing but white space. */
  lemma TrimsToNothing(text: string)
    ensures Trim(text) == "" <==> IsBlank(text)
  {
    var start := TrimStartCuts(text);
    var rest := text[start..];
    var end := TrimEndCuts(rest);
    assert rest == rest[..end] + rest[end..];
    if IsBlank(text) {
      assert start == |text|;
    } else {
      assert text == text[..start] + rest;
    }
  }

  /** A text that neither starts nor ends with white space is left alone. */
  lemma TrimKeeps(text: string)
    requires text == "" || (!IsWhitespace(text[0]) && !IsWhitespace(text[|text| - 1]))
    ensures Trim(text) == text
  {
  }

  /** Trimming that cuts nothing changes nothing. */
  lemma TrimOfSameLength(text: string)
    requires |Trim(text)| == |text|
    ensures Trim(text) == text
  {
    var start := TrimStartCuts(text);
    var end := TrimEndCuts(text[start..]);
    assert start == 0 && text[0..] == text && text[..|text|] == text;
  }

  lemma {:induction false} TrimStartDropsBlank(blank: string, text: string)
    requires IsBlank(blank)
    ensures TrimStart(blank + text) == TrimStart(text)
    decreases |blank|
  {
    if blank == "" {
      assert blank + text == text;
    } else {
      TrimStartDropsBlank(blank[1..], text);
      assert (blank + text)[1..] == blank[1..] + text;
    }
  }

  lemma {:induction false} TrimEndDropsBlank(text: string, blank: string)
    requires IsBlank(blank)
    ensures TrimEnd(text + blank) == TrimEnd(text)
    decreases |blank|
  {
    if blank == "" {
      assert text + blank == text;
    } else {
      TrimEndDropsBlank(text, blank[..|blank| - 1]);
      assert (text + blank)[..|text + blank| - 1] == text + blank[..|blank| - 1];
    }
  }

  /** White space around a trimmed text goes. */
  lemma TrimDropsPadding(front: string, text: string, back: string)
    requires IsBlank(front) && IsBlank(back) && Trim(text) == text && text != ""
    ensures Trim(front + text + back) == text
  {
    TrimStartDropsBlank(front, text + back);
    assert front + text + back == front + (text + back);
    StartOfTrimmed(text);
    assert (text + back)[0] == text[0];
    TrimEndDropsBlank(text, back);
  }

  lemma StartOfTrimmed(text: string)
    requires Trim(text) == text && text != ""
    ensures !IsWhitespace(text[0]) && TrimStart(text) == text && TrimEnd(text) == text
  {
    var start := TrimStartCuts(text);
    var end := TrimEndCuts(text[start..]);
    assert start == 0;
    assert text[0..] == text;
  }

  function LowerChar(c: char): char {
    if 'A' <= c <= 'Z' then c - 'A' + 'a' else c
  }

  function UpperChar(c: char): char {
    if 'a' <= c <= 'z' then c - 'a' + 'A' else c
  }

  const SMALL := "abcdefghijklmnopqrstuvwxyz"
  const CAPITAL := "ABCDEFGHIJKLMNOPQRSTUVWXYZ"

  const DIGITS := "0123456789"

  lemma CapitalsAreListed(c: char)
    ensures 'A' <= c <= 'Z' <==> c in CAPITAL
  {
    if 'A' <= c <= 'Z' {
      assert CAPITAL[c as int - 'A' as int] == c;
    }
  }

  lemma SmallLettersAreListed(c: char)
    ensures 'a' <= c <= 'z' <==> c in SMALL
  {
    if 'a' <= c <= 'z' {
      assert SMALL[c as int - 'a' as int] == c;
    }
  }

  lemma DigitsAreListed(c: char)
    ensures '0' <= c <= '9' <==> c in DIGITS
  {
    if '0' <= c <= '9' {
      assert DIGITS[c as int - '0' as int] == c;
    }
  }

  /** Each letter has one small and one capital form, by its place in the alphabet, */
  lemma CasesOfLetters(i: nat)
    requires i < 26
    ensures LowerChar(CAPITAL[i]) == LowerChar(SMALL[i]) == SMALL[i]
    ensures UpperChar(SMALL[i]) == UpperChar(CAPITAL[i]) == CAPITAL[i]
  {
    SmallLetterAt(i);
    CapitalAt(i);
  }

  lemma SmallLetterAt(i: nat)
    requires i < 26
    ensures SMALL[i] as int == 'a' as int + i
  {
  }

  lemma CapitalAt(i: nat)
    requires i < 26
    ensures CAPITAL[i] as int == 'A' as int + i
  {
  }

  /** and other characters have no case. */
  lemma OthersHaveNoCase(c: char)
    requires c !in SMALL && c !in CAPITAL
    ensures LowerChar(c) == c == UpperChar(c)
  {
    CapitalsAreListed(c);
    SmallLettersAreListed(c);
  }

  function Lower(text: string): (r: string)
    ensures |r| == |text|
    ensures forall i | 0 <= i < |text| :: r[i] == LowerChar(text[i])
  {
    seq(|text|, i requires 0 <= i < |text| => LowerChar(text[i]))
  }

  function Upper(text: string): (r: string)
    ensures |r| == |text|
    ensures forall i | 0 <= i < |text| :: r[i] == UpperChar(text[i])
  {
    seq(|text|, i requires 0 <= i < |text| => UpperChar(text[i]))
  }

  // ---- splitting at a character -------------------------------------------------------------

  /** The position of the first `c`, or the length of the text. */
  function UpTo(text: string, c: char): (n: nat)
    ensures n <= |text|
  {
    if text == "" || text[0] == c then 0 else 1 + UpTo(text[1..], c)
  }

  /** `str::split`: always at least one part. */
  function Split(text: string, separator: char): seq<string>
    decreases |text|
  {
    var n := UpTo(text, separator);
    if n == |text| then [text] else [text[..n]] + Split(text[n + 1..], separator)
  }

  lemma {:induction false} UpToStops(first: string, c: char, rest: string)
    requires Lacks(first, c)
    ensures UpTo(first, c) == |first| && UpTo(first + [c] + rest, c) == |first|
    decreases |first|
  {
    var text := first + [c] + rest;
    if first == "" {
      assert text[0] == c;
    } else {
      UpToStops(first[1..], c, rest);
      assert text[1..] == first[1..] + [c] + rest && text[0] == first[0];
    }
  }

  lemma {:induction false} UpToFinds(text: string, c: char)
    ensures var n := UpTo(text, c); Lacks(text[..n], c) && (n < |text| ==> text[n] == c)
    decreases |text|
  {
    if text != "" && text[0] != c {
      UpToFinds(text[1..], c);
      var n := UpTo(text, c);
      assert text[..n] == [text[0]] + text[1..][..n - 1];
    }
  }

  function Join(parts: seq<string>, separator: char): string
    requires parts != []
    decreases |parts|
  {
    if |parts| == 1 then parts[0] else parts[0] + [separator] + Join(parts[1..], separator)
  }

  predicate AllLack(parts: seq<string>, c: char) {
    forall i | 0 <= i < |parts| :: Lacks(parts[i], c)
  }

  /** Splitting undoes joining parts that lack the separator, */
  lemma {:induction false} SplitUndoesJoin(parts: seq<string>, c: char)
    requires parts != [] && AllLack(parts, c)
    ensures Split(Join(parts, c), c) == parts
    decreases |parts|
  {
    var first := parts[0];
    if |parts| == 1 {
      UpToStops(first, c, "");
      assert parts == [first];
    } else {
      var rest := Join(parts[1..], c);
      SplitUndoesJoin(parts[1..], c);
      UpToStops(first, c, rest);
      var text := first + [c] + rest;
      assert text[..|first|] == first && text[|first| + 1..] == rest;
      assert parts == [first] + parts[1..];
    }
  }

  /** and joining undoes splitting. */
  lemma {:induction false} JoinUndoesSplit(text: string, c: char)
    ensures Split(text, c) != [] && AllLack(Split(text, c), c) && Join(Split(text, c), c) == text
    decreases |text|
  {
    var n := UpTo(text, c);
    UpToFinds(text, c);
    if n == |text| {
      assert text[..n] == text;
    } else {
      var rest := text[n + 1..];
      JoinUndoesSplit(rest, c);
      assert Split(text, c)[1..] == Split(rest, c);
      assert text == text[..n] + [c] + rest;
    }
  }

  lemma {:induction false} JoinAppends(a: seq<string>, b: seq<string>, c: char)
    requires a != [] && b != []
    ensures Join(a + b, c) == Join(a, c) + [c] + Join(b, c)
    decreases |a|
  {
    assert (a + b)[1..] == a[1..] + b;
    if |a| > 1 {
      JoinAppends(a[1..], b, c);
    } else {
      assert a[1..] + b == b;
    }
  }
}
