/** The machine id: a hash of an application key and the fingerprint parts in canonical form. */
module MachineId {
  import opened Wrappers
  import opened Bytes
  import opened SdkErrors
  import opened Text
  import opened Base64

  // ---- one part ----------------------------------------------------------------------------------

  /** The length of the leading run of characters that are no white space. */
  function WordLength(text: string): (n: nat)
    ensures n <= |text|
  {
    if text == "" || IsWhitespace(text[0]) then 0 else 1 + WordLength(text[1..])
  }

  /** `str::split_whitespace`: the runs of characters that are no white space. */
  function Words(text: string): seq<string>
    decreases |text|
  {
    if text == "" then []
    else if IsWhitespace(text[0]) then Words(text[1..])
    else
      var n := WordLength(text);
      [text[..n]] + Words(text[n..])
  }

  function Spaced(words: seq<string>): string {
    if words == [] then "" else Join(words, ' ')
  }

  function Normalize(part: string): Option<string> {
    var text := Lower(Spaced(Words(part)));
    if text == "" then None else Some(text)
  }

  // ---- the list of parts ---------------------------------------------------------------------------

  function NormalizeAll(parts: seq<string>): seq<string> {
    if parts == [] then []
    else
      var first := Normalize(parts[0]);
      (if first.Some? then [first.value] else []) + NormalizeAll(parts[1..])
  }

  /** The order of strings: by code points, which is also the order of their UTF-8 forms. */
  predicate AtMost(a: string, b: string) {
    a == "" || (b != "" && (a[0] < b[0] || (a[0] == b[0] && AtMost(a[1..], b[1..]))))
  }

  function Insert(text: string, sorted: seq<string>): seq<string> {
    if sorted == [] || AtMost(text, sorted[0]) then [text] + sorted
    else [sorted[0]] + Insert(text, sorted[1..])
  }

  function Sort(texts: seq<string>): seq<string> {
    if texts == [] then [] else Insert(texts[0], Sort(texts[1..]))
  }

  /** `Vec::dedup`: of a run of equal elements the first stays. */
  function Dedup(texts: seq<string>): seq<string>
    decreases |texts|
  {
    if |texts| < 2 then texts
    else if texts[0] == texts[1] then Dedup([texts[0]] + texts[2..])
    else [texts[0]] + Dedup(texts[1..])
  }

  function Canonical(parts: seq<string>): seq<string> {
    Dedup(Sort(NormalizeAll(parts)))
  }

  function Payload(appKey: string, parts: seq<string>): Result<string, SdkError> {
    if IsBlank(appKey) || Canonical(parts) == [] then Err(InvalidMachineId)
    else Ok(Trim(appKey) + "\n" + Join(Canonical(parts), '\n'))
  }

  /** The normalised parts as a set. */
  function NormalSet(parts: seq<string>): set<string> {
    set i | 0 <= i < |parts| && Normalize(parts[i]).Some? :: Normalize(parts[i]).value
  }

  // ---- words ---------------------------------------------------------------------------------------

  predicate IsWord(word: string) {
    word != "" && forall i | 0 <= i < |word| :: !IsWhitespace(word[i])
  }

  predicate AllWords(words: seq<string>) {
    forall i | 0 <= i < |words| :: IsWord(words[i])
  }

  lemma {:induction false} WordLengthStops(text: string)
    ensures var n := WordLength(text);
      && (forall i | 0 <= i < n :: !IsWhitespace(text[i]))
      && (n < |text| ==> IsWhitespace(text[n]))
  {
    if text != "" && !IsWhitespace(text[0]) {
      WordLengthStops(text[1..]);
    }
  }

  lemma {:induction false} WordsAreWords(text: string)
    ensures AllWords(Words(text))
    decreases |text|
  {
    if text == "" {
    } else if IsWhitespace(text[0]) {
      WordsAreWords(text[1..]);
    } else {
      WordLengthStops(text);
      WordsAreWords(text[WordLength(text)..]);
    }
  }

  /** A word ends where white space or the text ends. */
  lemma {:induction false} WordLengthOf(word: string, rest: string)
    requires IsWord(word) && (rest == "" || IsWhitespace(rest[0]))
    ensures WordLength(word + rest) == |word|
    decreases |word|
  {
    var text := word + rest;
    assert text[1..] == word[1..] + rest;
    if |word| == 1 {
      assert text[1..] == rest;
    } else {
      WordLengthOf(word[1..], rest);
    }
  }

  lemma FirstWord(word: string, rest: string)
    requires IsWord(word) && (rest == "" || IsWhitespace(rest[0]))
    ensures Words(word + rest) == [word] + Words(rest)
  {
    var text := word + rest;
    WordLengthOf(word, rest);
    assert text[0] == word[0] && text[..|word|] == word && text[|word|..] == rest;
  }

  lemma {:induction false} WordsOfSpaced(words: seq<string>)
    requires AllWords(words)
    ensures Words(Spaced(words)) == words
    decreases |words|
  {
    if |words| == 1 {
      FirstWord(words[0], "");
      assert words[0] + "" == words[0];
      assert words == [words[0]] + [];
    } else if |words| > 1 {
      var rest := words[1..];
      WordsOfSpaced(rest);
      var tail := " " + Spaced(rest);
      assert tail[1..] == Spaced(rest);
      FirstWord(words[0], tail);
      assert Spaced(words) == words[0] + tail;
      assert words == [words[0]] + rest;
    }
  }

  function LowerAll(words: seq<string>): seq<string> {
    if words == [] then [] else [Lower(words[0])] + LowerAll(words[1..])
  }

  lemma LowerKeepsWord(word: string)
    requires IsWord(word)
    ensures IsWord(Lower(word)) && Lower(Lower(word)) == Lower(word)
  {
  }

  lemma {:induction false} LowerKeepsWords(words: seq<string>)
    requires AllWords(words)
    ensures AllWords(LowerAll(words)) && |LowerAll(words)| == |words|
    ensures LowerAll(LowerAll(words)) == LowerAll(words)
  {
    if words != [] {
      LowerKeepsWord(words[0]);
      LowerKeepsWords(words[1..]);
      assert LowerAll(words)[1..] == LowerAll(words[1..]);
    }
  }

  lemma {:induction false} LowerOfSpaced(words: seq<string>)
    ensures Lower(Spaced(words)) == Spaced(LowerAll(words))
    decreases |words|
  {
    if |words| == 1 {
      assert LowerAll(words) == [Lower(words[0])];
    } else if |words| > 1 {
      var rest := words[1..];
      LowerOfSpaced(rest);
      assert |LowerAll(rest)| > 0 && LowerAll(words)[1..] == LowerAll(rest);
      assert Lower(words[0] + " " + Spaced(rest)) == Lower(words[0]) + " " + Lower(Spaced(rest));
    }
  }

  /** The words of a part, in lower case: what is left of it when case and spacing are ignored. */
  function Core(part: string): seq<string> {
    LowerAll(Words(part))
  }

  lemma NormalizeIsSpacedCore(part: string)
    ensures AllWords(Core(part))
    ensures Normalize(part) == if Core(part) == [] then None else Some(Spaced(Core(part)))
  {
    WordsAreWords(part);
    LowerKeepsWords(Words(part));
    LowerOfSpaced(Words(part));
    if Core(part) != [] {
      assert IsWord(Core(part)[0]);
    }
  }

  /** Two parts are normalised alike exactly when they differ in nothing but case and spacing. */
  lemma NormalizedAlikeIff(a: string, b: string)
    ensures Normalize(a) == Normalize(b) <==> Core(a) == Core(b)
  {
    NormalizeIsSpacedCore(a);
    NormalizeIsSpacedCore(b);
    WordsOfSpaced(Core(a));
    WordsOfSpaced(Core(b));
  }

  /** A normalised part is left alone by another normalisation, and holds no newline. */
  lemma NormalFormIsFixed(part: string)
    requires Normalize(part).Some?
    ensures var text := Normalize(part).value; Normalize(text) == Some(text) && NewlineFree(text) && text != ""
  {
    NormalizeIsSpacedCore(part);
    var text := Normalize(part).value;
    WordsOfSpaced(Core(part));
    WordsAreWords(part);
    LowerKeepsWords(Words(part));
    NormalizeIsSpacedCore(text);
    SpacedIsNewlineFree(Core(part));
  }

  lemma {:induction false} SpacedIsNewlineFree(words: seq<string>)
    requires AllWords(words)
    ensures NewlineFree(Spaced(words))
    decreases |words|
  {
    if words != [] {
      assert IsWord(words[0]);
      SpacedIsNewlineFree(words[1..]);
    }
  }

  // ---- sorting ---------------------------------------------------------------------------------------

  lemma {:induction false} OrderIsTotal(a: string, b: string)
    ensures AtMost(a, b) || AtMost(b, a)
    ensures AtMost(a, b) && AtMost(b, a) ==> a == b
  {
    if a != "" && b != "" && a[0] == b[0] {
      OrderIsTotal(a[1..], b[1..]);
      assert a == [a[0]] + a[1..] && b == [b[0]] + b[1..];
    }
  }

  lemma {:induction false} OrderIsTransitive(a: string, b: string, c: string)
    requires AtMost(a, b) && AtMost(b, c)
    ensures AtMost(a, c)
  {
    if a != "" && a[0] == b[0] == c[0] {
      OrderIsTransitive(a[1..], b[1..], c[1..]);
    }
  }

  predicate IsSorted(texts: seq<string>) {
    forall i | 0 <= i < |texts| - 1 :: AtMost(texts[i], texts[i + 1])
  }

  /** Sorted and without repetition. */
  predicate Ascends(texts: seq<string>) {
    forall i | 0 <= i < |texts| - 1 :: AtMost(texts[i], texts[i + 1]) && texts[i] != texts[i + 1]
  }

  lemma {:induction false} InsertKeepsElements(text: string, sorted: seq<string>)
    ensures multiset(Insert(text, sorted)) == multiset(sorted) + multiset{text}
  {
    if sorted != [] && !AtMost(text, sorted[0]) {
      InsertKeepsElements(text, sorted[1..]);
      assert sorted == [sorted[0]] + sorted[1..];
    }
  }

  lemma {:induction false} InsertSorts(text: string, sorted: seq<string>)
    requires IsSorted(sorted)
    ensures var after := Insert(text, sorted);
      IsSorted(after) && after[0] == if sorted == [] || AtMost(text, sorted[0]) then text else sorted[0]
  {
    if sorted != [] && !AtMost(text, sorted[0]) {
      OrderIsTotal(text, sorted[0]);
      InsertSorts(text, sorted[1..]);
      SortedAfter(sorted[0], Insert(text, sorted[1..]));
    } else {
      SortedAfter(text, sorted);
    }
  }

  lemma SortedAfter(first: string, rest: seq<string>)
    requires IsSorted(rest) && (rest != [] ==> AtMost(first, rest[0]))
    ensures IsSorted([first] + rest)
  {
    var all := [first] + rest;
    forall i | 0 <= i < |all| - 1 ensures AtMost(all[i], all[i + 1]) {
      if i > 0 {
        assert all[i] == rest[i - 1] && all[i + 1] == rest[i];
      }
    }
  }

  lemma {:induction false} SortSorts(texts: seq<string>)
    ensures IsSorted(Sort(texts)) && multiset(Sort(texts)) == multiset(texts)
  {
    if texts != [] {
      SortSorts(texts[1..]);
      InsertSorts(texts[0], Sort(texts[1..]));
      InsertKeepsElements(texts[0], Sort(texts[1..]));
      assert texts == [texts[0]] + texts[1..];
    }
  }

  lemma {:induction false} DedupAscends(texts: seq<string>)
    requires IsSorted(texts)
    ensures var after := Dedup(texts);
      Ascends(after) && |after| <= |texts| && (texts != [] ==> after != [] && after[0] == texts[0])
    ensures forall x :: x in Dedup(texts) <==> x in texts
    decreases |texts|
  {
    if |texts| >= 2 {
      var rest := texts[1..];
      assert texts == [texts[0]] + rest;
      if texts[0] == texts[1] {
        assert [texts[0]] + texts[2..] == rest;
      }
      DedupAscends(rest);
    }
  }

  /** The least element comes first, and only there. */
  lemma {:induction false} FirstIsLeast(texts: seq<string>, i: nat)
    requires Ascends(texts) && 0 < i < |texts|
    ensures AtMost(texts[0], texts[i]) && texts[0] != texts[i]
    decreases i
  {
    if i > 1 {
      FirstIsLeast(texts, i - 1);
      OrderIsTransitive(texts[0], texts[i - 1], texts[i]);
      if texts[0] == texts[i] {
        OrderIsTotal(texts[i - 1], texts[i]);
      }
    }
  }

  lemma FirstIsLeastOf(texts: seq<string>, x: string)
    requires Ascends(texts) && x in texts
    ensures AtMost(texts[0], x) && (x in texts[1..] <==> x != texts[0])
  {
    var i :| 0 <= i < |texts| && texts[i] == x;
    if i == 0 {
      OrderIsTotal(x, x);
    } else {
      FirstIsLeast(texts, i);
    }
    if x in texts[1..] {
      var j :| 0 <= j < |texts[1..]| && texts[1..][j] == x;
      FirstIsLeast(texts, j + 1);
    }
  }

  predicate SameElements(a: seq<string>, b: seq<string>) {
    (forall x | x in a :: x in b) && (forall x | x in b :: x in a)
  }

  /** A set of texts has one ascending list. */
  lemma {:induction false} AscendingListIsUnique(a: seq<string>, b: seq<string>)
    requires Ascends(a) && Ascends(b) && SameElements(a, b)
    ensures a == b
    decreases |a|
  {
    assert b != [] ==> b[0] in b;
    if a != [] {
      assert a[0] in b && (b != [] ==> b[0] in a);
      FirstIsLeastOf(a, b[0]);
      FirstIsLeastOf(b, a[0]);
      OrderIsTotal(a[0], b[0]);
      forall x | x in a[1..] ensures x in b[1..] {
        FirstIsLeastOf(a, x);
        FirstIsLeastOf(b, x);
      }
      forall x | x in b[1..] ensures x in a[1..] {
        FirstIsLeastOf(a, x);
        FirstIsLeastOf(b, x);
      }
      AscendingListIsUnique(a[1..], b[1..]);
      assert a == [a[0]] + a[1..] && b == [b[0]] + b[1..];
    }
  }

  // ---- the canonical form ------------------------------------------------------------------------------

  lemma {:induction false} NormalizedElements(parts: seq<string>, x: string)
    ensures x in NormalizeAll(parts) <==> x in NormalSet(parts)
  {
    if parts != [] {
      var rest := parts[1..];
      NormalizedElements(rest, x);
      if x in NormalSet(rest) {
        var i :| 0 <= i < |rest| && Normalize(rest[i]) == Some(x);
        assert Normalize(parts[i + 1]) == Some(x);
      }
      if x in NormalSet(parts) {
        var i :| 0 <= i < |parts| && Normalize(parts[i]) == Some(x);
        if i > 0 {
          assert Normalize(rest[i - 1]) == Some(x);
        }
      }
    }
  }

  lemma CanonicalListsTheSet(parts: seq<string>)
    ensures Ascends(Canonical(parts))
    ensures forall x :: x in Canonical(parts) <==> x in NormalSet(parts)
  {
    var list := NormalizeAll(parts);
    SortSorts(list);
    DedupAscends(Sort(list));
    forall x ensures x in Canonical(parts) <==> x in NormalSet(parts) {
      NormalizedElements(parts, x);
      assert x in Sort(list) <==> x in multiset(Sort(list));
      assert x in list <==> x in multiset(list);
    }
  }

  /** Order, repetition, case and spacing of the parts do not matter, and nothing else is lost. */
  lemma CanonicalEqualIff(parts: seq<string>, other: seq<string>)
    ensures Canonical(parts) == Canonical(other) <==> NormalSet(parts) == NormalSet(other)
  {
    CanonicalListsTheSet(parts);
    CanonicalListsTheSet(other);
    if NormalSet(parts) == NormalSet(other) {
      AscendingListIsUnique(Canonical(parts), Canonical(other));
    }
    if Canonical(parts) == Canonical(other) {
      assert forall x :: x in NormalSet(parts) <==> x in NormalSet(other);
    }
  }

  lemma CanonicalIsNewlineFree(parts: seq<string>)
    ensures AllLack(Canonical(parts), '\n')
  {
    CanonicalListsTheSet(parts);
    var list := Canonical(parts);
    forall k | 0 <= k < |list| ensures Lacks(list[k], '\n') {
      assert list[k] in NormalSet(parts);
      var i :| 0 <= i < |parts| && Normalize(parts[i]) == Some(list[k]);
      NormalFormIsFixed(parts[i]);
    }
  }

  /** The lines of a payload: those of the key, then the canonical parts. */
  function PayloadLines(appKey: string, parts: seq<string>): seq<string> {
    Split(Trim(appKey), '\n') + Canonical(parts)
  }

  lemma PayloadIsItsLines(appKey: string, parts: seq<string>)
    requires Payload(appKey, parts).Ok?
    ensures Split(Payload(appKey, parts).value, '\n') == PayloadLines(appKey, parts)
  {
    var lines := Split(Trim(appKey), '\n');
    JoinUndoesSplit(Trim(appKey), '\n');
    CanonicalIsNewlineFree(parts);
    JoinAppends(lines, Canonical(parts), '\n');
    SplitUndoesJoin(lines + Canonical(parts), '\n');
  }

  /** Two payloads are equal exactly when they have the same lines. */
  lemma PayloadsEqualIffLines(appA: string, partsA: seq<string>, appB: string, partsB: seq<string>)
    requires Payload(appA, partsA).Ok? && Payload(appB, partsB).Ok?
    ensures Payload(appA, partsA) == Payload(appB, partsB) <==> PayloadLines(appA, partsA) == PayloadLines(appB, partsB)
  {
    PayloadIsItsLines(appA, partsA);
    PayloadIsItsLines(appB, partsB);
    JoinUndoesSplit(Payload(appA, partsA).value, '\n');
    JoinUndoesSplit(Payload(appB, partsB).value, '\n');
  }

  /** So for application keys without a newline inside, equal payloads mean equal trimmed keys and
      equal sets of normalised parts, and conversely. */
  lemma PayloadsEqualIff(appA: string, partsA: seq<string>, appB: string, partsB: seq<string>)
    requires NewlineFree(Trim(appA)) && NewlineFree(Trim(appB))
    requires Payload(appA, partsA).Ok? && Payload(appB, partsB).Ok?
    ensures Payload(appA, partsA) == Payload(appB, partsB)
       <==> Trim(appA) == Trim(appB) && NormalSet(partsA) == NormalSet(partsB)
  {
    PayloadsEqualIffLines(appA, partsA, appB, partsB);
    UpToStops(Trim(appA), '\n', "");
    UpToStops(Trim(appB), '\n', "");
    assert PayloadLines(appA, partsA)[1..] == Canonical(partsA) && PayloadLines(appB, partsB)[1..] == Canonical(partsB);
    CanonicalEqualIff(partsA, partsB);
  }

  lemma CanonicalOfLetters()
    ensures Canonical(["b"]) == ["b"] && Canonical(["b", "a"]) == ["a", "b"]
  {
    Letter("a");
    Letter("b");
    var one, two := ["b"], ["b", "a"];
    assert one[1..] == [] && two[1..] == ["a"] && ["a"][1..] == [];
    assert NormalizeAll(one) == ["b"] && NormalizeAll(["a"]) == ["a"] && NormalizeAll(two) == ["b", "a"];
    assert Sort(["b"]) == ["b"] && Sort(["a"]) == ["a"] && !AtMost("b", "a");
    assert Insert("b", []) == ["b"] && Insert("b", ["a"]) == ["a", "b"];
    assert ["a", "b"][1..] == ["b"];
  }

  /** An application key with a newline inside can pass for a key and a part. */
  lemma NewlineInKeyCollides()
    ensures Payload("k\na", ["b"]).Ok? && Payload("k\na", ["b"]) == Payload("k", ["b", "a"])
  {
    CanonicalOfLetters();
    TrimKeeps("k\na");
    TrimKeeps("k");
    assert !IsWhitespace("k\na"[0]) && !IsWhitespace("k"[0]);
    assert ["a", "b"][1..] == ["b"];
    assert Join(["a", "b"], '\n') == "a\nb";
    assert "k\na" + "\n" + "b" == "k" + "\n" + "a\nb";
  }

  lemma Letter(text: string)
    requires |text| == 1 && 'a' <= text[0] <= 'z'
    ensures Normalize(text) == Some(text)
  {
    FirstWord(text, "");
    assert text + "" == text && Words("") == [];
    assert Lower(text) == text;
  }

  // ---- which inputs share their payload --------------------------------------------------------

  /** A part that normalisation leaves alone. */
  predicate IsNormal(text: string) {
    Normalize(text) == Some(text)
  }

  /** Neither blank nor in need of trimming. */
  predicate IsSolid(text: string) {
    text != "" && !IsWhitespace(text[0]) && !IsWhitespace(text[|text| - 1])
  }

  lemma {:induction false} SpacedIsSolid(words: seq<string>)
    requires AllWords(words) && words != []
    ensures IsSolid(Spaced(words))
    decreases |words|
  {
    assert IsWord(words[0]);
    if |words| > 1 {
      SpacedIsSolid(words[1..]);
    }
  }

  lemma NormalIsSolid(text: string)
    requires IsNormal(text)
    ensures IsSolid(text) && NewlineFree(text)
  {
    NormalizeIsSpacedCore(text);
    SpacedIsSolid(Core(text));
    NormalFormIsFixed(text);
  }

  lemma SolidIsTrimmed(text: string)
    requires IsSolid(text)
    ensures Trim(text) == text && !IsBlank(text)
  {
    TrimKeeps(text);
    assert !IsWhitespace(text[0]);
  }

  lemma TrimmedIsSolid(text: string)
    requires !IsBlank(text)
    ensures IsSolid(Trim(text))
  {
    TrimsToNothing(text);
    var start := TrimStartCuts(text);
    var end := TrimEndCuts(text[start..]);
    assert Trim(text) == text[start..][..end];
  }

  lemma SolidLines(a: string, b: string)
    requires IsSolid(a) && IsSolid(b)
    ensures IsSolid(a + "\n" + b)
  {
  }

  predicate AllNormal(texts: seq<string>) {
    forall i | 0 <= i < |texts| :: IsNormal(texts[i])
  }

  lemma {:induction false} JoinedIsSolid(texts: seq<string>)
    requires AllNormal(texts) && texts != []
    ensures IsSolid(Join(texts, '\n'))
    decreases |texts|
  {
    NormalIsSolid(texts[0]);
    if |texts| > 1 {
      JoinedIsSolid(texts[1..]);
      SolidLines(texts[0], Join(texts[1..], '\n'));
    }
  }

  lemma CanonicalIsNormal(parts: seq<string>)
    ensures AllNormal(Canonical(parts))
  {
    CanonicalListsTheSet(parts);
    var list := Canonical(parts);
    forall k | 0 <= k < |list| ensures IsNormal(list[k]) {
      assert list[k] in NormalSet(parts);
      var i :| 0 <= i < |parts| && Normalize(parts[i]) == Some(list[k]);
      NormalFormIsFixed(parts[i]);
    }
  }

  /** An ascending list of normal forms is its own canonical list. */
  lemma CanonicalIsFixed(list: seq<string>)
    requires Ascends(list) && AllNormal(list)
    ensures Canonical(list) == list
  {
    CanonicalListsTheSet(list);
    forall x | x in list ensures x in Canonical(list) {
      var i :| 0 <= i < |list| && list[i] == x;
      assert Normalize(list[i]) == Some(x);
      assert x in NormalSet(list);
    }
    forall x | x in Canonical(list) ensures x in list {
      assert x in NormalSet(list);
      var i :| 0 <= i < |list| && Normalize(list[i]) == Some(x);
      assert list[i] == x;
    }
    AscendingListIsUnique(Canonical(list), list);
  }

  /** The same key after trimming and the same set of parts. */
  ghost predicate SameIdentity(appA: string, partsA: seq<string>, appB: string, partsB: seq<string>) {
    Trim(appA) == Trim(appB) && NormalSet(partsA) == NormalSet(partsB)
  }

  function KeyLines(appKey: string): seq<string> {
    Split(Trim(appKey), '\n')
  }

  /** The key without its last line. */
  function KeyFront(appKey: string): string
    requires |KeyLines(appKey)| >= 2
  {
    Join(KeyLines(appKey)[..|KeyLines(appKey)| - 1], '\n')
  }

  /** The last line could be a part that comes before all others, and the lines before it a key. */
  predicate LastCouldBePart(lines: seq<string>, list: seq<string>) {
    && |lines| >= 2 && list != []
    && IsNormal(lines[|lines| - 1]) && lines[|lines| - 1] != list[0] && AtMost(lines[|lines| - 1], list[0])
    && IsSolid(Join(lines[..|lines| - 1], '\n'))
  }

  predicate LastLineCouldBePart(appKey: string, parts: seq<string>) {
    LastCouldBePart(KeyLines(appKey), Canonical(parts))
  }

  /** Whatever the key, the first of two or more canonical parts can be taken for its last line. */
  lemma PartPassesForLine(appKey: string, parts: seq<string>)
    requires !IsBlank(appKey) && |Canonical(parts)| >= 2
    ensures var list := Canonical(parts);
      var key := Trim(appKey) + "\n" + list[0];
      Payload(key, list[1..]).Ok? && Payload(key, list[1..]) == Payload(appKey, parts) && Trim(key) != Trim(appKey)
  {
    var list := Canonical(parts);
    var key := Trim(appKey) + "\n" + list[0];
    CanonicalListsTheSet(parts);
    CanonicalIsNormal(parts);
    CanonicalIsFixed(list[1..]);
    NormalIsSolid(list[0]);
    TrimmedIsSolid(appKey);
    SolidLines(Trim(appKey), list[0]);
    SolidIsTrimmed(key);
    LinesRegrouped(Trim(appKey), list[0], Join(list[1..], '\n'));
  }

  lemma LinesRegrouped(a: string, b: string, c: string)
    ensures a + "\n" + b + "\n" + c == a + "\n" + (b + "\n" + c)
  {
  }

  lemma KeyIsFrontAndLast(appKey: string)
    requires |KeyLines(appKey)| >= 2
    ensures Trim(appKey) == KeyFront(appKey) + "\n" + KeyLines(appKey)[|KeyLines(appKey)| - 1]
  {
    var lines := KeyLines(appKey);
    JoinUndoesSplit(Trim(appKey), '\n');
    JoinAppends(lines[..|lines| - 1], [lines[|lines| - 1]], '\n');
    assert lines == lines[..|lines| - 1] + [lines[|lines| - 1]];
  }

  lemma NewFirst(first: string, rest: seq<string>)
    requires Ascends(rest) && AllNormal(rest) && rest != []
    requires IsNormal(first) && first != rest[0] && AtMost(first, rest[0])
    ensures Canonical([first] + rest) == [first] + rest
    ensures Join([first] + rest, '\n') == first + "\n" + Join(rest, '\n')
  {
    var list := [first] + rest;
    assert forall i | 0 < i < |list| :: list[i] == rest[i - 1];
    CanonicalIsFixed(list);
    assert list[1..] == rest;
  }

  /** And the last line of a key can be taken for a part, when it could be one. */
  lemma LinePassesForPart(appKey: string, parts: seq<string>)
    requires !IsBlank(appKey) && LastLineCouldBePart(appKey, parts)
    ensures var lines := KeyLines(appKey);
      var list := [lines[|lines| - 1]] + Canonical(parts);
      && Payload(KeyFront(appKey), list).Ok? && Payload(KeyFront(appKey), list) == Payload(appKey, parts)
      && Trim(KeyFront(appKey)) != Trim(appKey)
  {
    var last := KeyLines(appKey)[|KeyLines(appKey)| - 1];
    CanonicalListsTheSet(parts);
    CanonicalIsNormal(parts);
    NewFirst(last, Canonical(parts));
    SolidIsTrimmed(KeyFront(appKey));
    KeyIsFrontAndLast(appKey);
    LinesRegrouped(KeyFront(appKey), last, Join(Canonical(parts), '\n'));
  }

  /** Equal payloads cut the same lines into key and parts; the shorter of two different keys leaves the
      rest of the longer to its parts. */
  lemma SharedLines(appA: string, partsA: seq<string>, appB: string, partsB: seq<string>)
    requires Payload(appA, partsA).Ok? && Payload(appA, partsA) == Payload(appB, partsB)
    requires !SameIdentity(appA, partsA, appB, partsB)
    ensures |KeyLines(appA)| != |KeyLines(appB)|
    ensures PayloadLines(appA, partsA) == PayloadLines(appB, partsB)
    ensures Canonical(partsA) != [] && Canonical(partsB) != [] && KeyLines(appA) != [] && KeyLines(appB) != []
  {
    PayloadsEqualIffLines(appA, partsA, appB, partsB);
    JoinUndoesSplit(Trim(appA), '\n');
    JoinUndoesSplit(Trim(appB), '\n');
    var lines := PayloadLines(appA, partsA);
    if |KeyLines(appA)| == |KeyLines(appB)| {
      var n := |KeyLines(appA)|;
      assert lines[..n] == KeyLines(appA) && lines[..n] == KeyLines(appB);
      assert lines[n..] == Canonical(partsA) && lines[n..] == Canonical(partsB);
      CanonicalEqualIff(partsA, partsB);
    }
  }

  /** One list cut in two ways. */
  lemma CutElsewhere(keyA: seq<string>, listA: seq<string>, keyB: seq<string>, listB: seq<string>)
    requires keyA + listA == keyB + listB && |keyB| < |keyA| && listA != []
    ensures var i := |keyA| - 1 - |keyB|;
      && i + 1 < |listB| && keyA[|keyA| - 1] == listB[i] && listA[0] == listB[i + 1]
      && keyA[..|keyA| - 1] == keyB + listB[..i]
  {
    var all, i := keyA + listA, |keyA| - 1 - |keyB|;
    assert all[|keyA| - 1] == keyA[|keyA| - 1] && all[|keyA|] == listA[0];
    assert (keyB + listB)[|keyA| - 1] == listB[i] && (keyB + listB)[|keyA|] == listB[i + 1];
    assert all[..|keyA| - 1] == keyA[..|keyA| - 1] && (keyB + listB)[..|keyA| - 1] == keyB + listB[..i];
  }

  lemma KeyAndPartsAreSolid(appKey: string, texts: seq<string>)
    requires !IsBlank(appKey) && AllNormal(texts)
    ensures KeyLines(appKey) != [] && IsSolid(Join(KeyLines(appKey) + texts, '\n'))
  {
    JoinUndoesSplit(Trim(appKey), '\n');
    TrimmedIsSolid(appKey);
    if texts == [] {
      assert KeyLines(appKey) + texts == KeyLines(appKey);
    } else {
      JoinAppends(KeyLines(appKey), texts, '\n');
      JoinedIsSolid(texts);
      SolidLines(Trim(appKey), Join(texts, '\n'));
    }
  }

  lemma LineIsPart(keyA: seq<string>, listA: seq<string>, keyB: seq<string>, listB: seq<string>, i: nat)
    requires keyA + listA == keyB + listB && i == |keyA| - 1 - |keyB| && listA != [] && keyB != []
    requires Ascends(listB) && AllNormal(listB)
    requires i <= |listB| && IsSolid(Join(keyB + listB[..i], '\n'))
    ensures LastCouldBePart(keyA, listA)
  {
    CutElsewhere(keyA, listA, keyB, listB);
    assert IsNormal(listB[i]) && AtMost(listB[i], listB[i + 1]) && listB[i] != listB[i + 1];
  }

  /** A shorter key elsewhere means that this key's last line could be a part. */
  lemma ShorterKeyShares(appA: string, partsA: seq<string>, appB: string, partsB: seq<string>)
    requires Canonical(partsA) != [] && !IsBlank(appB) && KeyLines(appB) != []
    requires |KeyLines(appB)| < |KeyLines(appA)| && PayloadLines(appA, partsA) == PayloadLines(appB, partsB)
    ensures LastLineCouldBePart(appA, partsA)
  {
    var listB, i := Canonical(partsB), |KeyLines(appA)| - 1 - |KeyLines(appB)|;
    CanonicalListsTheSet(partsB);
    CanonicalIsNormal(partsB);
    CutElsewhere(KeyLines(appA), Canonical(partsA), KeyLines(appB), listB);
    KeyAndPartsAreSolid(appB, listB[..i]);
    LineIsPart(KeyLines(appA), Canonical(partsA), KeyLines(appB), listB, i);
  }

  /** The payload of a key and a list of parts stands for another key or another set of parts as well exactly
      when there are two or more canonical parts, or the last line of the key could itself be a part. */
  lemma PayloadIsSharedIff(appKey: string, parts: seq<string>)
    requires Payload(appKey, parts).Ok?
    ensures (exists k: string, p: seq<string> ::
               Payload(k, p) == Payload(appKey, parts) && !SameIdentity(k, p, appKey, parts))
       <==> |Canonical(parts)| >= 2 || LastLineCouldBePart(appKey, parts)
  {
    if |Canonical(parts)| >= 2 {
      PartPassesForLine(appKey, parts);
      var k, p := Trim(appKey) + "\n" + Canonical(parts)[0], Canonical(parts)[1..];
      assert Payload(k, p) == Payload(appKey, parts) && !SameIdentity(k, p, appKey, parts);
    }
    if LastLineCouldBePart(appKey, parts) {
      LinePassesForPart(appKey, parts);
      var k, p := KeyFront(appKey), [KeyLines(appKey)[|KeyLines(appKey)| - 1]] + Canonical(parts);
      assert Payload(k, p) == Payload(appKey, parts) && !SameIdentity(k, p, appKey, parts);
    }
    if k: string, p: seq<string> :|
      Payload(k, p) == Payload(appKey, parts) && !SameIdentity(k, p, appKey, parts)
    {
      SharedLines(appKey, parts, k, p);
      if |KeyLines(k)| < |KeyLines(appKey)| {
        ShorterKeyShares(appKey, parts, k, p);
      } else {
        assert |Canonical(parts)| == |KeyLines(k)| - |KeyLines(appKey)| + |Canonical(p)|;
      }
    }
  }

  /** For a key without a newline inside: exactly when there are two or more canonical parts. */
  lemma PayloadOfOneLineKeyIsSharedIff(appKey: string, parts: seq<string>)
    requires Payload(appKey, parts).Ok? && NewlineFree(Trim(appKey))
    ensures (exists k: string, p: seq<string> ::
               Payload(k, p) == Payload(appKey, parts) && !SameIdentity(k, p, appKey, parts))
       <==> |Canonical(parts)| >= 2
  {
    PayloadIsSharedIff(appKey, parts);
    UpToStops(Trim(appKey), '\n', "");
    assert |KeyLines(appKey)| == 1;
  }

  // ---- the id ------------------------------------------------------------------------------------------

  method MachineIdFromFingerprintParts(sha256: string -> seq<byte>, appKey: string, parts: seq<string>)
    returns (r: Result<string, SdkError>)
    ensures r == match Payload(appKey, parts)
      case Err(error) => Err(error)
      case Ok(payload) => Ok(Encode(UrlSafeNoPad, sha256(payload)))
  {
    var key := Trim(appKey);
    TrimsToNothing(appKey);
    if key == "" {
      return Err(InvalidMachineId);
    }
    var normalized := NormalizeAll(parts);
    normalized := Sort(normalized);
    normalized := Dedup(normalized);
    if normalized == [] {
      return Err(InvalidMachineId);
    }
    var payload := key + "\n" + Join(normalized, '\n');
    return Ok(Encode(UrlSafeNoPad, sha256(payload)));
  }

  /** Ids differ exactly when the hashes of the payloads do. */
  lemma IdsEqualIff(a: seq<byte>, b: seq<byte>)
    ensures Encode(UrlSafeNoPad, a) == Encode(UrlSafeNoPad, b) <==> a == b
  {
    DecodesWhatItEncodes(UrlSafeNoPad, a);
    DecodesWhatItEncodes(UrlSafeNoPad, b);
  }

  // ---- an example ----------------------------------------------------------------------------------------

  /** A word in capital letters gives the line of its small letters. */
  lemma PartsAreLowerCase()
    ensures Normalize("ABC") == Some("abc") && Payload("app", ["ABC"]) == Ok("app\nabc")
  {
    CasesOfLetters(0);
    CasesOfLetters(1);
    CasesOfLetters(2);
    assert "ABC" + "" == "ABC" && ["ABC"] + [] == ["ABC"];
    FirstWord("ABC", "");
    assert Lower("ABC") == "abc";
    assert ["ABC"][1..] == [];
    assert NormalizeAll(["ABC"]) == ["abc"];
    assert Sort(["abc"]) == ["abc"] by {
      assert ["abc"][1..] == [];
    }
    assert Canonical(["ABC"]) == ["abc"];
    assert "app" + "\n" + "abc" == "app\nabc";
    TrimKeeps("app");
    assert !IsBlank("app") by {
      assert !IsWhitespace("app"[0]);
    }
  }
}
