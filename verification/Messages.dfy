/** The texts that are signed: device requests, release metadata and scripts. */
module Messages {
  import opened Bytes
  import opened Text
  import opened Base64

  function DigitChar(n: int): char
    requires 0 <= n <= 9
  {
    '0' + n as char
  }

  function Digits(n: nat): string {
    if n < 10 then [DigitChar(n)] else Digits(n / 10) + [DigitChar(n % 10)]
  }

  /** `i64::to_string`. */
  function Decimal(n: int): string {
    if n < 0 then "-" + Digits(-n) else Digits(n)
  }

  function DeviceSignatureMessage(
    httpMethod: string, path: string, bodyHash: string, timestamp: int, nonce: string,
    deviceId: string, deviceKeyId: string, sessionId: string): string
  {
    Upper(httpMethod) + "\n" + path + "\n" + bodyHash + "\n" + Decimal(timestamp) + "\n" + nonce
    + "\n" + deviceId + "\n" + deviceKeyId + "\n" + sessionId
  }

  function ReleasePayload(
    appId: string, version: string, versionCode: int, hash: string, size: int, publishedAt: int): string
  {
    appId + "\n" + version + "\n" + Decimal(versionCode) + "\n" + hash + "\n" + Decimal(size)
    + "\n" + Decimal(publishedAt)
  }

  function ScriptPayload(hash: string, versionCode: int): string {
    hash + ":" + Decimal(versionCode)
  }

  predicate ValidNonce(nonce: string) {
    && 16 <= |nonce| <= 128
    && forall i | 0 <= i < |nonce| ::
         'a' <= nonce[i] <= 'z' || 'A' <= nonce[i] <= 'Z' || '0' <= nonce[i] <= '9' || nonce[i] in {'-', '_'}
  }

  /** A nonce has 16 to 128 characters of the URL-safe alphabet. */
  lemma NonceIff(nonce: string)
    ensures ValidNonce(nonce) <==>
      && |nonce| >= 16 && |nonce| <= 128
      && forall i | 0 <= i < |nonce| ::
           nonce[i] in SMALL || nonce[i] in CAPITAL || nonce[i] in DIGITS || nonce[i] == '-' || nonce[i] == '_'
  {
    forall i | 0 <= i < |nonce|
      ensures 'a' <= nonce[i] <= 'z' <==> nonce[i] in SMALL
      ensures 'A' <= nonce[i] <= 'Z' <==> nonce[i] in CAPITAL
      ensures '0' <= nonce[i] <= '9' <==> nonce[i] in DIGITS
    {
      SmallLettersAreListed(nonce[i]);
      CapitalsAreListed(nonce[i]);
      DigitsAreListed(nonce[i]);
    }
  }

  // ---- decimal numbers ---------------------------------------------------------------------

  lemma {:induction false} DigitsReadBack(n: nat)
    ensures DigitsValue(Digits(n)) == n && Digits(n) != ""
    ensures forall i | 0 <= i < |Digits(n)| :: '0' <= Digits(n)[i] <= '9'
  {
    if n < 10 {
      assert Digits(n)[..0] == "";
    } else {
      DigitsReadBack(n / 10);
      assert Digits(n)[..|Digits(n)| - 1] == Digits(n / 10);
    }
  }

  /** Decimal numbers have no superfluous zeros. */
  lemma {:induction false} NoLeadingZero(n: nat)
    ensures Digits(n) != "" && (Digits(n)[0] == '0' <==> n == 0)
    ensures n < 10 ==> Digits(n) == ["0123456789"[n]]
  {
    if n >= 10 {
      NoLeadingZero(n / 10);
    }
  }

  lemma DecimalReadsBack(n: int)
    ensures var text := Decimal(n);
      && text != "" && (text[0] == '-' <==> n < 0)
      && n == (if n < 0 then -DigitsValue(text[1..]) else DigitsValue(text))
      && forall i | 0 <= i < |text| :: text[i] == '-' || '0' <= text[i] <= '9'
    ensures Decimal(0) == "0" && (n != 0 ==> Decimal(n)[if n < 0 then 1 else 0] != '0')
  {
    NoLeadingZero(if n < 0 then -n else n);
    if n < 0 {
      DigitsReadBack(-n);
      assert Decimal(n)[1..] == Digits(-n);
    } else {
      DigitsReadBack(n);
    }
  }

  lemma DecimalIsInjective(a: int, b: int)
    ensures Decimal(a) == Decimal(b) <==> a == b
    ensures NewlineFree(Decimal(a)) && Lacks(Decimal(a), ':')
  {
    DecimalReadsBack(a);
    DecimalReadsBack(b);
  }

  // ---- cutting at a separator ----------------------------------------------------------------

  /** A last field without the separator can be cut off in only one way. */
  lemma LastFieldIsUnique(front1: string, last1: string, front2: string, last2: string, separator: char)
    requires Lacks(last1, separator) && Lacks(last2, separator)
    ensures front1 + [separator] + last1 == front2 + [separator] + last2 <==> front1 == front2 && last1 == last2
  {
    var text1, text2 := front1 + [separator] + last1, front2 + [separator] + last2;
    if text1 == text2 {
      assert text1[|front1|] == separator == text2[|front2|];
      assert forall k | |front1| < k < |text1| :: text1[k] == last1[k - |front1| - 1] != separator;
      assert forall k | |front2| < k < |text2| :: text2[k] == last2[k - |front2| - 1] != separator;
      assert |front1| == |front2|;
      assert text1[..|front1|] == front1 && text2[..|front2|] == front2;
      assert text1[|front1| + 1..] == last1 && text2[|front2| + 1..] == last2;
    }
  }

  /** And so can a first field. */
  lemma FirstFieldIsUnique(first1: string, rest1: string, first2: string, rest2: string, separator: char)
    requires Lacks(first1, separator) && Lacks(first2, separator)
    ensures first1 + [separator] + rest1 == first2 + [separator] + rest2 <==> first1 == first2 && rest1 == rest2
  {
    var text1, text2 := first1 + [separator] + rest1, first2 + [separator] + rest2;
    if text1 == text2 {
      assert text1[|first1|] == separator == text2[|first2|];
      assert forall k | 0 <= k < |first1| :: text1[k] == first1[k] != separator;
      assert forall k | 0 <= k < |first2| :: text2[k] == first2[k] != separator;
      assert |first1| == |first2|;
      assert text1[..|first1|] == first1 && text2[..|first2|] == first2;
      assert text1[|first1| + 1..] == rest1 && text2[|first2| + 1..] == rest2;
    }
  }

  // ---- what a message determines ---------------------------------------------------------------

  datatype DeviceRequest = DeviceRequest(
    httpMethod: string, path: string, bodyHash: string, timestamp: int, nonce: string,
    deviceId: string, deviceKeyId: string, sessionId: string)
  {
    function Message(): string {
      DeviceSignatureMessage(httpMethod, path, bodyHash, timestamp, nonce, deviceId, deviceKeyId, sessionId)
    }

    predicate FieldsNewlineFree() {
      && NewlineFree(httpMethod) && NewlineFree(path) && NewlineFree(bodyHash) && NewlineFree(nonce)
      && NewlineFree(deviceId) && NewlineFree(deviceKeyId) && NewlineFree(sessionId)
    }

    function Front(n: nat): string
      requires n <= 7
    {
      if n == 0 then Upper(httpMethod) else Front(n - 1) + "\n" + Field(n)
    }

    function Field(n: nat): string
      requires 1 <= n <= 7
    {
      if n == 1 then path else if n == 2 then bodyHash else if n == 3 then Decimal(timestamp)
      else if n == 4 then nonce else if n == 5 then deviceId else if n == 6 then deviceKeyId else sessionId
    }
  }

  lemma {:induction false} EqualFronts(a: DeviceRequest, b: DeviceRequest, n: nat)
    requires a.FieldsNewlineFree() && b.FieldsNewlineFree() && n <= 7
    ensures a.Front(n) == b.Front(n)
       <==> Upper(a.httpMethod) == Upper(b.httpMethod) && forall k | 1 <= k <= n :: a.Field(k) == b.Field(k)
    decreases n
  {
    if n > 0 {
      EqualFronts(a, b, n - 1);
      DecimalIsInjective(a.timestamp, b.timestamp);
      DecimalIsInjective(b.timestamp, a.timestamp);
      LastFieldIsUnique(a.Front(n - 1), a.Field(n), b.Front(n - 1), b.Field(n), '\n');
    }
  }

  lemma MessageIsFront(r: DeviceRequest)
    ensures r.Message() == r.Front(7)
  {
    var f0 := Upper(r.httpMethod);
    var f1 := f0 + "\n" + r.path;
    var f2 := f1 + "\n" + r.bodyHash;
    var f3 := f2 + "\n" + Decimal(r.timestamp);
    var f4 := f3 + "\n" + r.nonce;
    var f5 := f4 + "\n" + r.deviceId;
    var f6 := f5 + "\n" + r.deviceKeyId;
    assert r.Front(1) == f1 && r.Front(2) == f2 && r.Front(3) == f3;
    assert r.Front(4) == f4 && r.Front(5) == f5 && r.Front(6) == f6;
  }

  // ---- counting newlines -----------------------------------------------------------------------

  function Newlines(text: string): nat {
    if text == "" then 0 else (if text[0] == '\n' then 1 else 0) + Newlines(text[1..])
  }

  lemma {:induction false} NewlinesOfJoined(a: string, b: string)
    ensures Newlines(a + b) == Newlines(a) + Newlines(b)
    decreases |a|
  {
    if a == "" {
      assert a + b == b;
    } else {
      NewlinesOfJoined(a[1..], b);
      assert (a + b)[1..] == a[1..] + b;
    }
  }

  lemma {:induction false} NoNewlinesIff(text: string)
    ensures Newlines(text) == 0 <==> NewlineFree(text)
    decreases |text|
  {
    if text != "" {
      NoNewlinesIff(text[1..]);
      assert NewlineFree(text) <==> text[0] != '\n' && NewlineFree(text[1..]);
    }
  }

  /** A front of `n` fields after the method has `n` newlines of its own. */
  lemma {:induction false} NewlinesOfFront(r: DeviceRequest, n: nat)
    requires n <= 7
    ensures Newlines(r.Front(n)) >= n
    ensures Newlines(r.Front(n)) == n
       <==> NewlineFree(r.httpMethod) && forall k | 1 <= k <= n :: NewlineFree(r.Field(k))
    decreases n
  {
    if n == 0 {
      NoNewlinesIff(Upper(r.httpMethod));
      assert NewlineFree(Upper(r.httpMethod)) <==> NewlineFree(r.httpMethod) by {
        assert forall i | 0 <= i < |r.httpMethod| :: Upper(r.httpMethod)[i] == '\n' <==> r.httpMethod[i] == '\n';
      }
    } else {
      NewlinesOfFront(r, n - 1);
      NoNewlinesIff(r.Field(n));
      NewlinesOfJoined(r.Front(n - 1), "\n");
      NewlinesOfJoined(r.Front(n - 1) + "\n", r.Field(n));
      assert Newlines("\n") == 1;
    }
  }

  /** The message alone tells whether the request holds newlines. */
  lemma NewlineFreeIffSeven(r: DeviceRequest)
    ensures r.FieldsNewlineFree() <==> Newlines(r.Message()) == 7
  {
    MessageIsFront(r);
    NewlinesOfFront(r, 7);
    DecimalIsInjective(r.timestamp, r.timestamp);
    assert r.Field(3) == Decimal(r.timestamp);
    assert forall k | 1 <= k <= 7 ::
      r.Field(k) in {r.path, r.bodyHash, Decimal(r.timestamp), r.nonce, r.deviceId, r.deviceKeyId, r.sessionId};
    assert r.Field(1) == r.path && r.Field(2) == r.bodyHash && r.Field(4) == r.nonce;
    assert r.Field(5) == r.deviceId && r.Field(6) == r.deviceKeyId && r.Field(7) == r.sessionId;
  }

  /** A request without newlines shares its message with those requests only that agree with it in every
      field, the method up to case; the other need not be known to be free of newlines. */
  lemma DeviceMessagesEqualIff(a: DeviceRequest, b: DeviceRequest)
    requires a.FieldsNewlineFree()
    ensures a.Message() == b.Message() <==> SameUpToCase(a, b)
  {
    NewlineFreeIffSeven(a);
    NewlineFreeIffSeven(b);
    MessageIsFront(a);
    MessageIsFront(b);
    if a.Message() == b.Message() {
      EqualFronts(a, b, 7);
      DecimalIsInjective(a.timestamp, b.timestamp);
      assert a.Field(1) == b.Field(1) && a.Field(2) == b.Field(2) && a.Field(3) == b.Field(3);
      assert a.Field(4) == b.Field(4) && a.Field(5) == b.Field(5) && a.Field(6) == b.Field(6);
      assert a.Field(7) == b.Field(7);
    }
  }

  predicate SameUpToCase(a: DeviceRequest, b: DeviceRequest) {
    Upper(a.httpMethod) == Upper(b.httpMethod) && a == b.(httpMethod := a.httpMethod)
  }

  /** The signer fixes the hash and checks the nonce itself, so only the method, path and ids are
      left to the caller: equal messages then sign the same digest of the body. */
  lemma SignedRequestsEqualIff(a: DeviceRequest, b: DeviceRequest, digestA: seq<byte>, digestB: seq<byte>)
    requires a.bodyHash == Encode(UrlSafeNoPad, digestA) && b.bodyHash == Encode(UrlSafeNoPad, digestB)
    requires ValidNonce(a.nonce)
    requires NewlineFree(a.httpMethod + a.path + a.deviceId + a.deviceKeyId + a.sessionId)
    ensures a.Message() == b.Message()
       <==> && Upper(a.httpMethod) == Upper(b.httpMethod) && a.path == b.path && digestA == digestB
            && a.timestamp == b.timestamp && a.nonce == b.nonce && a.deviceId == b.deviceId
            && a.deviceKeyId == b.deviceKeyId && a.sessionId == b.sessionId
  {
    CallerFieldsNewlineFree(a, digestA);
    DeviceMessagesEqualIff(a, b);
    DecodesWhatItEncodes(UrlSafeNoPad, digestA);
    DecodesWhatItEncodes(UrlSafeNoPad, digestB);
  }

  lemma CallerFieldsNewlineFree(r: DeviceRequest, digest: seq<byte>)
    requires r.bodyHash == Encode(UrlSafeNoPad, digest) && ValidNonce(r.nonce)
    requires NewlineFree(r.httpMethod + r.path + r.deviceId + r.deviceKeyId + r.sessionId)
    ensures r.FieldsNewlineFree()
  {
    EncodingsAreSpaceFree(UrlSafeNoPad, digest);
    PartsNewlineFree(r.httpMethod + r.path + r.deviceId + r.deviceKeyId, r.sessionId);
    PartsNewlineFree(r.httpMethod + r.path + r.deviceId, r.deviceKeyId);
    PartsNewlineFree(r.httpMethod + r.path, r.deviceId);
    PartsNewlineFree(r.httpMethod, r.path);
  }

  lemma PartsNewlineFree(a: string, b: string)
    requires NewlineFree(a + b)
    ensures NewlineFree(a) && NewlineFree(b)
  {
    assert forall i | 0 <= i < |a| :: a[i] == (a + b)[i];
    assert forall i | 0 <= i < |b| :: b[i] == (a + b)[|a| + i];
  }

  // ---- collisions --------------------------------------------------------------------------------

  /** The two parts of a field around its first newline. */
  function BeforeNewline(text: string): string
    requires !NewlineFree(text)
  {
    text[..UpTo(text, '\n')]
  }

  function AfterNewline(text: string): string
    requires !NewlineFree(text)
  {
    if UpTo(text, '\n') < |text| then text[UpTo(text, '\n') + 1..] else ""
  }

  lemma CutAtNewline(text: string)
    requires !NewlineFree(text)
    ensures text == BeforeNewline(text) + "\n" + AfterNewline(text)
  {
    UpToFinds(text, '\n');
    var n := UpTo(text, '\n');
    assert text[..n] + text[n..] == text;
    assert n < |text|;
  }

  /** The first newline of one of two fields can pass for the one between them: the same text, but
      other fields. */
  lemma Shifted(x: string, y: string) returns (u: string, v: string)
    requires !NewlineFree(x) || !NewlineFree(y)
    ensures u != x && u + "\n" + v == x + "\n" + y
  {
    if !NewlineFree(x) {
      CutAtNewline(x);
      u, v := BeforeNewline(x), AfterNewline(x) + "\n" + y;
      assert u + "\n" + (AfterNewline(x) + "\n" + y) == u + "\n" + AfterNewline(x) + "\n" + y;
    } else {
      CutAtNewline(y);
      u, v := x + "\n" + BeforeNewline(y), AfterNewline(y);
      assert x + "\n" + (BeforeNewline(y) + "\n" + v) == x + "\n" + BeforeNewline(y) + "\n" + v;
    }
  }

  lemma UpperShifted(x: string, y: string)
    requires !NewlineFree(x)
    ensures var (u, v) := (BeforeNewline(x), Upper(AfterNewline(x)) + "\n" + y);
      Upper(u) != Upper(x) && Upper(u) + "\n" + v == Upper(x) + "\n" + y
  {
    CutAtNewline(x);
    var u, w := BeforeNewline(x), AfterNewline(x);
    assert Upper(u + "\n" + w) == Upper(u) + "\n" + Upper(w);
    assert Upper(u) + "\n" + (Upper(w) + "\n" + y) == Upper(u) + "\n" + Upper(w) + "\n" + y;
  }

  /** The lines of a message. */
  function Fields(r: DeviceRequest): seq<string> {
    [Upper(r.httpMethod), r.path, r.bodyHash, Decimal(r.timestamp), r.nonce, r.deviceId, r.deviceKeyId, r.sessionId]
  }

  lemma {:induction false} FrontIsJoin(r: DeviceRequest, n: nat)
    requires n <= 7
    ensures r.Front(n) == Join(Fields(r)[..n + 1], '\n')
    decreases n
  {
    if n == 0 {
      assert Fields(r)[..1] == [Upper(r.httpMethod)];
    } else {
      FrontIsJoin(r, n - 1);
      JoinAppends(Fields(r)[..n], [r.Field(n)], '\n');
      assert Fields(r)[n] == r.Field(n);
      assert Fields(r)[..n + 1] == Fields(r)[..n] + [r.Field(n)];
    }
  }

  lemma MessageIsJoin(r: DeviceRequest)
    ensures r.Message() == Join(Fields(r), '\n')
  {
    MessageIsFront(r);
    FrontIsJoin(r, 7);
    assert Fields(r)[..8] == Fields(r);
  }

  /** So the message of a request with the method "post" starts with the line "POST". */
  lemma MethodIsUpperCase(r: DeviceRequest)
    requires r.httpMethod == "post"
    ensures StartsWith(r.Message(), "POST\n")
  {
    assert Upper("post") == "POST" by {
      CasesOfLetters(15);
      CasesOfLetters(14);
      CasesOfLetters(18);
      CasesOfLetters(19);
      assert Upper("post")[0] == 'P' && Upper("post")[1] == 'O' && Upper("post")[2] == 'S' && Upper("post")[3] == 'T';
    }
    MessageIsJoin(r);
    assert Join(Fields(r), '\n') == "POST" + "\n" + Join(Fields(r)[1..], '\n');
  }

  lemma JoinFromMiddle(front: seq<string>, middle: seq<string>, other: seq<string>, back: seq<string>, c: char)
    requires middle != [] && other != [] && Join(middle, c) == Join(other, c)
    ensures Join(front + middle + back, c) == Join(front + other + back, c)
  {
    if back == [] {
      assert front + middle + back == front + middle && front + other + back == front + other;
    } else {
      JoinAppends(front + middle, back, c);
      JoinAppends(front + other, back, c);
    }
    if front == [] {
      assert front + middle == middle && front + other == other;
    } else {
      JoinAppends(front, middle, c);
      JoinAppends(front, other, c);
    }
  }

  /** Requests whose fields differ only in two neighbours, which give the same text together, share
      their message. */
  lemma NeighboursCollide(a: DeviceRequest, b: DeviceRequest, k: nat)
    requires k <= 6 && Fields(a)[..k] == Fields(b)[..k] && Fields(a)[k + 2..] == Fields(b)[k + 2..]
    requires Fields(a)[k] + "\n" + Fields(a)[k + 1] == Fields(b)[k] + "\n" + Fields(b)[k + 1]
    ensures a.Message() == b.Message()
  {
    var front, back := Fields(a)[..k], Fields(a)[k + 2..];
    var twoA, twoB := [Fields(a)[k], Fields(a)[k + 1]], [Fields(b)[k], Fields(b)[k + 1]];
    assert twoA[1..] == [Fields(a)[k + 1]] && twoB[1..] == [Fields(b)[k + 1]];
    JoinFromMiddle(front, twoA, twoB, back, '\n');
    assert Fields(a) == front + twoA + back && Fields(b) == front + twoB + back;
    MessageIsJoin(a);
    MessageIsJoin(b);
  }

  /** For every request that holds a newline there is another with the same message. */
  lemma NewlinesCollide(r: DeviceRequest) returns (other: DeviceRequest)
    requires !r.FieldsNewlineFree()
    ensures other.Message() == r.Message() && !SameUpToCase(other, r)
  {
    if !NewlineFree(r.httpMethod) {
      UpperShifted(r.httpMethod, r.path);
      other := r.(httpMethod := BeforeNewline(r.httpMethod),
                  path := Upper(AfterNewline(r.httpMethod)) + "\n" + r.path);
      NeighboursCollide(other, r, 0);
    } else if !NewlineFree(r.path) || !NewlineFree(r.bodyHash) {
      var u, v := Shifted(r.path, r.bodyHash);
      other := r.(path := u, bodyHash := v);
      NeighboursCollide(other, r, 1);
    } else if !NewlineFree(r.nonce) || !NewlineFree(r.deviceId) {
      var u, v := Shifted(r.nonce, r.deviceId);
      other := r.(nonce := u, deviceId := v);
      NeighboursCollide(other, r, 4);
    } else {
      var u, v := Shifted(r.deviceKeyId, r.sessionId);
      other := r.(deviceKeyId := u, sessionId := v);
      NeighboursCollide(other, r, 6);
    }
  }

  /** A message stands for more than one request, up to the case of the method, exactly when a field of
      the request holds a newline. */
  lemma MessageIsSharedIff(r: DeviceRequest)
    ensures (exists other: DeviceRequest :: other.Message() == r.Message() && !SameUpToCase(other, r))
       <==> !r.FieldsNewlineFree()
  {
    if r.FieldsNewlineFree() {
      forall other: DeviceRequest | other.Message() == r.Message() ensures SameUpToCase(other, r) {
        DeviceMessagesEqualIff(r, other);
      }
    } else {
      var other := NewlinesCollide(r);
    }
  }

  /** Where the newline is in the method or in one of the ids, the other request has the same hash, nonce and
      timestamp: if the signer makes and accepts those of one, it does those of the other. */
  lemma SignableRequestsCollide(r: DeviceRequest) returns (other: DeviceRequest)
    requires || !NewlineFree(r.httpMethod) || !NewlineFree(r.deviceId)
             || !NewlineFree(r.deviceKeyId) || !NewlineFree(r.sessionId)
    ensures other.Message() == r.Message() && !SameUpToCase(other, r)
    ensures other.bodyHash == r.bodyHash && other.nonce == r.nonce && other.timestamp == r.timestamp
  {
    if !NewlineFree(r.httpMethod) {
      UpperShifted(r.httpMethod, r.path);
      other := r.(httpMethod := BeforeNewline(r.httpMethod),
                  path := Upper(AfterNewline(r.httpMethod)) + "\n" + r.path);
      NeighboursCollide(other, r, 0);
    } else if !NewlineFree(r.deviceId) || !NewlineFree(r.deviceKeyId) {
      var u, v := Shifted(r.deviceId, r.deviceKeyId);
      other := r.(deviceId := u, deviceKeyId := v);
      NeighboursCollide(other, r, 5);
    } else {
      var u, v := Shifted(r.deviceKeyId, r.sessionId);
      other := r.(deviceKeyId := u, sessionId := v);
      NeighboursCollide(other, r, 6);
    }
  }

  datatype Release = Release(
    appId: string, version: string, versionCode: int, hash: string, size: int, publishedAt: int)
  {
    function Payload(): string {
      ReleasePayload(appId, version, versionCode, hash, size, publishedAt)
    }

    function Name(): string {
      appId + "\n" + version
    }
  }

  /** The six lines of a release payload, with no newline at the end. */
  lemma ReleaseLines(r: Release)
    ensures r.Payload() == Join(
      [r.appId, r.version, Decimal(r.versionCode), r.hash, Decimal(r.size), Decimal(r.publishedAt)], '\n')
  {
    var lines := [r.appId, r.version, Decimal(r.versionCode), r.hash, Decimal(r.size), Decimal(r.publishedAt)];
    JoinLast(lines, '\n');
    JoinLast(lines[..5], '\n');
    JoinLast(lines[..4], '\n');
    JoinLast(lines[..3], '\n');
    JoinLast(lines[..2], '\n');
    assert lines[..5][..4] == lines[..4] && lines[..4][..3] == lines[..3] && lines[..3][..2] == lines[..2];
    assert lines[..2][..1] == [r.appId];
  }

  lemma JoinLast(parts: seq<string>, c: char)
    requires |parts| > 1
    ensures Join(parts, c) == Join(parts[..|parts| - 1], c) + [c] + parts[|parts| - 1]
  {
    var last := [parts[|parts| - 1]];
    assert parts == parts[..|parts| - 1] + last;
    JoinAppends(parts[..|parts| - 1], last, c);
  }

  /** A script payload is the hash and the version code with a colon between them. */
  lemma ScriptParts(hash: string, versionCode: int)
    ensures ScriptPayload(hash, versionCode) == Join([hash, Decimal(versionCode)], ':')
  {
    JoinLast([hash, Decimal(versionCode)], ':');
    assert [hash, Decimal(versionCode)][..1] == [hash];
  }

  /** A release payload determines the version code, hash, size and time; the application id and the
      version only as far as they can be told apart once joined. */
  lemma ReleasePayloadsEqualIff(a: Release, b: Release)
    requires NewlineFree(a.hash) && NewlineFree(b.hash)
    ensures a.Payload() == b.Payload()
       <==> && a.versionCode == b.versionCode && a.hash == b.hash && a.size == b.size
            && a.publishedAt == b.publishedAt && a.Name() == b.Name()
    ensures NewlineFree(a.appId) && NewlineFree(b.appId) ==> (a.Payload() == b.Payload() <==> a == b)
  {
    var a1, b1 := a.Name() + "\n" + Decimal(a.versionCode), b.Name() + "\n" + Decimal(b.versionCode);
    var a2, b2 := a1 + "\n" + a.hash, b1 + "\n" + b.hash;
    var a3, b3 := a2 + "\n" + Decimal(a.size), b2 + "\n" + Decimal(b.size);
    DecimalIsInjective(a.versionCode, b.versionCode);
    DecimalIsInjective(b.versionCode, a.versionCode);
    DecimalIsInjective(a.size, b.size);
    DecimalIsInjective(b.size, a.size);
    DecimalIsInjective(a.publishedAt, b.publishedAt);
    DecimalIsInjective(b.publishedAt, a.publishedAt);
    LastFieldIsUnique(a3, Decimal(a.publishedAt), b3, Decimal(b.publishedAt), '\n');
    LastFieldIsUnique(a2, Decimal(a.size), b2, Decimal(b.size), '\n');
    LastFieldIsUnique(a1, a.hash, b1, b.hash, '\n');
    LastFieldIsUnique(a.Name(), Decimal(a.versionCode), b.Name(), Decimal(b.versionCode), '\n');
    if NewlineFree(a.appId) && NewlineFree(b.appId) {
      FirstFieldIsUnique(a.appId, a.version, b.appId, b.version, '\n');
    }
  }

  /** A script payload determines the hash and the version code, whatever the hash contains. */
  lemma ScriptPayloadsEqualIff(hashA: string, codeA: int, hashB: string, codeB: int)
    ensures ScriptPayload(hashA, codeA) == ScriptPayload(hashB, codeB) <==> hashA == hashB && codeA == codeB
  {
    DecimalIsInjective(codeA, codeB);
    DecimalIsInjective(codeB, codeA);
    LastFieldIsUnique(hashA, Decimal(codeA), hashB, Decimal(codeB), ':');
  }
}
