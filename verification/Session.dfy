/** The client's session and the mutex-guarded manager that refreshes it. */
module Session {
  import opened Wrappers
  import opened SdkErrors
  import opened Text

  const MIN_I64 := -0x8000_0000_0000_0000
  const MAX_I64 := 0x7FFF_FFFF_FFFF_FFFF

  type i64 = x: int | MIN_I64 <= x <= MAX_I64

  function SaturatingAdd(a: i64, b: i64): i64 {
    if a + b > MAX_I64 then MAX_I64 else if a + b < MIN_I64 then MIN_I64 else a + b
  }

  datatype SessionInit = SessionInit(
    sessionId: string, deviceId: string, accessToken: string, refreshToken: string,
    tokenType: Option<string>, expiresIn: i64, refreshExpiresIn: i64, features: string)

  datatype SessionRefresh = SessionRefresh(
    accessToken: string, refreshToken: string, tokenType: Option<string>,
    expiresIn: i64, refreshExpiresIn: i64, features: string)

  datatype SessionState = SessionState(
    sessionId: string, deviceId: string, tokenType: string, accessToken: string, refreshToken: string,
    accessExpiresAt: i64, refreshExpiresAt: i64, features: string)
  {
    predicate Valid() {
      && !IsBlank(sessionId) && !IsBlank(deviceId) && !IsBlank(tokenType)
      && !IsBlank(accessToken) && !IsBlank(refreshToken)
      && accessExpiresAt > 0 && refreshExpiresAt > accessExpiresAt
    }

    function Validate(): Result<(), SdkError> {
      if IsBlank(sessionId) || IsBlank(deviceId) || IsBlank(tokenType)
         || IsBlank(accessToken) || IsBlank(refreshToken)
      then Err(InvalidSession)
      else if accessExpiresAt <= 0 || refreshExpiresAt <= 0 then Err(InvalidSession)
      else if refreshExpiresAt <= accessExpiresAt then Err(InvalidSession)
      else Ok(())
    }

    predicate RefreshTokenExpired(now: i64) {
      now >= refreshExpiresAt
    }

    predicate NeedsRefresh(now: i64, before: i64) {
      SaturatingAdd(now, if before < 0 then 0 else before) >= accessExpiresAt
    }

    /** The assignments come before the final validation: a failed refresh can leave a changed state. */
    function ApplyRefresh(refresh: SessionRefresh, now: i64): (SessionState, Result<(), SdkError>) {
      if IsBlank(refresh.accessToken) || IsBlank(refresh.refreshToken)
         || refresh.expiresIn <= 0 || refresh.refreshExpiresIn <= 0
      then (this, Err(InvalidSession))
      else
        var tokenType := NormalizeTokenType(refresh.tokenType);
        if tokenType.Err? then (this, Err(tokenType.error))
        else
          var next := this.(
            tokenType := tokenType.value, accessToken := refresh.accessToken, refreshToken := refresh.refreshToken,
            accessExpiresAt := SaturatingAdd(now, refresh.expiresIn),
            refreshExpiresAt := SaturatingAdd(now, refresh.refreshExpiresIn), features := refresh.features);
          (next, next.Validate())
    }
  }

  function NormalizeTokenType(tokenType: Option<string>): Result<string, SdkError> {
    var text := Trim(if tokenType.Some? then tokenType.value else "Bearer");
    if IsBlank(text) || HasWhitespace(text) then Err(InvalidSession) else Ok(text)
  }

  /** Building a session does not compare the two expiries; only `Validate` does. */
  function FromInit(init: SessionInit, now: i64): Result<SessionState, SdkError> {
    if IsBlank(init.sessionId) || IsBlank(init.deviceId)
       || IsBlank(init.accessToken) || IsBlank(init.refreshToken)
       || init.expiresIn <= 0 || init.refreshExpiresIn <= 0
    then Err(InvalidSession)
    else
      var tokenType :- NormalizeTokenType(init.tokenType);
      Ok(SessionState(init.sessionId, init.deviceId, tokenType, init.accessToken, init.refreshToken,
                      SaturatingAdd(now, init.expiresIn), SaturatingAdd(now, init.refreshExpiresIn), init.features))
  }

  /** The token type is the given one, or "Bearer", without the white space around it; it must be a single
      word. */
  lemma TokenTypeIsOneWord(tokenType: Option<string>)
    ensures var text := Trim(match tokenType case Some(given) => given case None => "Bearer");
      NormalizeTokenType(tokenType)
      == if text != "" && forall i | 0 <= i < |text| :: !IsWhitespace(text[i]) then Ok(text) else Err(InvalidSession)
  {
    var text := Trim(match tokenType case Some(given) => given case None => "Bearer");
    assert text == Trim(if tokenType.Some? then tokenType.value else "Bearer");
    assert !IsBlank(text) && !HasWhitespace(text) <==> text != "" && !HasWhitespace(text) by {
      if text != "" && IsBlank(text) {
        assert IsWhitespace(text[0]);
      }
    }
  }

  /** Sums of the clock and a lifetime stop at the ends of the 64-bit range. */
  lemma SumsStopAtTheEnds(now: i64, lifetime: i64)
    ensures var sum := now + lifetime;
      SaturatingAdd(now, lifetime)
      == if sum < -9223372036854775808 then -9223372036854775808
         else if sum <= 9223372036854775807 then sum else 9223372036854775807
  {
  }

  lemma BlankIffTrimmedEmpty(a: string, b: string, c: string, d: string)
    ensures IsBlank(a) || IsBlank(b) || IsBlank(c) || IsBlank(d)
       <==> Trim(a) == "" || Trim(b) == "" || Trim(c) == "" || Trim(d) == ""
  {
    TrimsToNothing(a);
    TrimsToNothing(b);
    TrimsToNothing(c);
    TrimsToNothing(d);
  }

  /** A session is built exactly from ids and tokens that are not blank, lifetimes that are positive and a
      good token type, and each of its parts is the one given. */
  lemma BuiltSessionIsAsGiven(init: SessionInit, now: i64)
    ensures FromInit(init, now).Ok? <==>
      && Trim(init.sessionId) != "" && Trim(init.deviceId) != ""
      && Trim(init.accessToken) != "" && Trim(init.refreshToken) != ""
      && init.expiresIn > 0 && init.refreshExpiresIn > 0 && NormalizeTokenType(init.tokenType).Ok?
    ensures FromInit(init, now).Err? ==> FromInit(init, now) == Err(InvalidSession)
    ensures FromInit(init, now).Ok? ==>
      var built := FromInit(init, now).value;
      && built.sessionId == init.sessionId && built.deviceId == init.deviceId
      && built.accessToken == init.accessToken && built.refreshToken == init.refreshToken
      && Ok(built.tokenType) == NormalizeTokenType(init.tokenType) && built.features == init.features
      && built.accessExpiresAt == SaturatingAdd(now, init.expiresIn)
      && built.refreshExpiresAt == SaturatingAdd(now, init.refreshExpiresIn)
  {
    BlankIffTrimmedEmpty(init.sessionId, init.deviceId, init.accessToken, init.refreshToken);
  }

  /** A session is valid exactly when none of its texts is blank and its expiries are positive and in
      order. */
  lemma ValidIffFilledAndOrdered(s: SessionState)
    ensures s.Validate() == if
        && Trim(s.sessionId) != "" && Trim(s.deviceId) != "" && Trim(s.tokenType) != ""
        && Trim(s.accessToken) != "" && Trim(s.refreshToken) != ""
        && 0 < s.accessExpiresAt < s.refreshExpiresAt
      then Ok(()) else Err(InvalidSession)
  {
    BlankIffTrimmedEmpty(s.sessionId, s.deviceId, s.accessToken, s.refreshToken);
    TrimsToNothing(s.tokenType);
  }

  lemma ValidateDecidesValid(s: SessionState)
    ensures s.Validate().Ok? <==> s.Valid()
  {
  }

  /** A built session passes validation exactly when its expiries are ordered and positive after
      saturation. */
  lemma BuiltSessionValidIff(init: SessionInit, now: i64)
    requires FromInit(init, now).Ok?
    ensures FromInit(init, now).value.Valid()
       <==> 0 < SaturatingAdd(now, init.expiresIn) < SaturatingAdd(now, init.refreshExpiresIn)
  {
  }

  /** Equal lifetimes are accepted, and never make a valid session. */
  lemma BuiltSessionMayBeInvalid(init: SessionInit, now: i64)
    requires FromInit(init, now).Ok?
    ensures var equal := FromInit(init.(refreshExpiresIn := init.expiresIn), now); equal.Ok? && !equal.value.Valid()
  {
    BuiltSessionValidIff(init.(refreshExpiresIn := init.expiresIn), now);
  }

  /** An accepted refresh did not saturate the access expiry, so the token outlives `now`. It takes from
      the offer both tokens, the token type and the features, counts both lifetimes from `now`, and keeps
      the identity of the session. */
  lemma AcceptedRefresh(s: SessionState, refresh: SessionRefresh, now: i64)
    requires s.ApplyRefresh(refresh, now).1.Ok?
    ensures var next := s.ApplyRefresh(refresh, now).0;
      && next.Valid() && next.accessExpiresAt == now + refresh.expiresIn > now
      && next.refreshExpiresAt == SaturatingAdd(now, refresh.refreshExpiresIn)
      && next.accessToken == refresh.accessToken && next.refreshToken == refresh.refreshToken
      && Ok(next.tokenType) == NormalizeTokenType(refresh.tokenType) && next.features == refresh.features
      && next.sessionId == s.sessionId && next.deviceId == s.deviceId
  {
  }

  /** A refresh of a session with ids is accepted exactly if it would be accepted for a new session and its
      expiries come out positive and in order. */
  lemma RefreshAcceptedIff(s: SessionState, refresh: SessionRefresh, now: i64)
    requires !IsBlank(s.sessionId) && !IsBlank(s.deviceId)
    ensures s.ApplyRefresh(refresh, now).1.Ok? <==>
      && Trim(refresh.accessToken) != "" && Trim(refresh.refreshToken) != ""
      && refresh.expiresIn > 0 && refresh.refreshExpiresIn > 0 && NormalizeTokenType(refresh.tokenType).Ok?
      && 0 < SaturatingAdd(now, refresh.expiresIn) < SaturatingAdd(now, refresh.refreshExpiresIn)
    ensures s.ApplyRefresh(refresh, now).1.Err? ==> s.ApplyRefresh(refresh, now).1 == Err(InvalidSession)
  {
    TrimsToNothing(refresh.accessToken);
    TrimsToNothing(refresh.refreshToken);
  }

  // ---- the manager -----------------------------------------------------------------------------

  /** What the refresh callback does when called: it answers, or it panics and poisons the mutex. */
  datatype Reply = Panics | Answers(answer: Result<SessionRefresh, SdkError>)

  /** How a call ends for its caller. */
  datatype Outcome<T> = Returned(result: Result<T, SdkError>) | Unwound

  /** What the mutex guards, and the refresh tokens handed to callbacks so far. */
  datatype Guarded = Guarded(session: Option<SessionState>, poisoned: bool, handed: seq<string>)

  function RefreshSession(g: Guarded, now: i64, before: i64, reply: Reply): (Guarded, Outcome<bool>) {
    if g.poisoned || g.session.None? then (g, Returned(Err(InvalidSession)))
    else
      var s := g.session.value;
      if !s.NeedsRefresh(now, before) then (g, Returned(Ok(false)))
      else if s.RefreshTokenExpired(now) then (g.(session := None), Returned(Err(ExpiredRefreshToken)))
      else
        var asked := g.(handed := g.handed + [s.refreshToken]);
        match reply
        case Panics => (asked.(poisoned := true), Unwound)
        case Answers(Err(error)) => (asked.(session := None), Returned(Err(error)))
        case Answers(Ok(refresh)) =>
          var (next, applied) := s.ApplyRefresh(refresh, now);
          if applied.Err? then (asked.(session := None), Returned(Err(applied.error)))
          else (asked.(session := Some(next)), Returned(Ok(true)))
  }

  /** What a call that hands out the session answers, given how its refresh ended. */
  function Answer(outcome: Outcome<bool>, session: Option<SessionState>): Outcome<SessionState> {
    match outcome
    case Unwound => Unwound
    case Returned(Err(error)) => Returned(Err(error))
    case Returned(Ok(_)) => if session.Some? then Returned(Ok(session.value)) else Returned(Err(InvalidSession))
  }

  class SessionManager {
    var session: Option<SessionState>
    var poisoned: bool
    ghost var handed: seq<string>

    ghost function Contents(): Guarded
      reads this
    {
      Guarded(session, poisoned, handed)
    }

    /** A manager may be built around any session, validated or not. */
    constructor (session: Option<SessionState>)
      ensures Contents() == Guarded(session, false, [])
    {
      this.session := session;
      poisoned := false;
      handed := [];
    }

    method CurrentSession() returns (r: Result<Option<SessionState>, SdkError>)
      ensures r == if poisoned then Err(InvalidSession) else Ok(session)
    {
      return if poisoned then Err(InvalidSession) else Ok(session);
    }

    method SetSession(next: SessionState) returns (r: Result<(), SdkError>)
      modifies this
      ensures r.Ok? <==> next.Valid() && !poisoned
      ensures Contents() == Do(old(Contents()), Set(next))
      ensures Contents() == if r.Ok? then old(Contents()).(session := Some(next)) else old(Contents())
    {
      ValidateDecidesValid(next);
      var _ :- next.Validate();
      if poisoned {
        return Err(InvalidSession);
      }
      session := Some(next);
      return Ok(());
    }

    method ClearSession() returns (r: Result<(), SdkError>)
      modifies this
      ensures r.Ok? <==> !poisoned
      ensures Contents() == Do(old(Contents()), Clear)
      ensures Contents() == if r.Ok? then old(Contents()).(session := None) else old(Contents())
    {
      if poisoned {
        return Err(InvalidSession);
      }
      session := None;
      return Ok(());
    }

    /** Works on the session in place, the last validation included. */
    method ApplyRefresh(refresh: SessionRefresh, now: i64) returns (r: Result<(), SdkError>)
      requires session.Some?
      modifies this`session
      ensures session.Some? && (session.value, r) == old(session).value.ApplyRefresh(refresh, now)
    {
      if IsBlank(refresh.accessToken) || IsBlank(refresh.refreshToken)
         || refresh.expiresIn <= 0 || refresh.refreshExpiresIn <= 0 {
        return Err(InvalidSession);
      }
      var tokenType :- NormalizeTokenType(refresh.tokenType);
      session := Some(session.value.(tokenType := tokenType));
      session := Some(session.value.(accessToken := refresh.accessToken));
      session := Some(session.value.(refreshToken := refresh.refreshToken));
      session := Some(session.value.(accessExpiresAt := SaturatingAdd(now, refresh.expiresIn)));
      session := Some(session.value.(refreshExpiresAt := SaturatingAdd(now, refresh.refreshExpiresIn)));
      session := Some(session.value.(features := refresh.features));
      return session.value.Validate();
    }

    method RefreshIfNeeded(now: i64, before: i64, callback: SessionState -> Reply) returns (r: Outcome<bool>)
      modifies this
      ensures old(session).Some? ==>
        (Contents(), r) == RefreshSession(old(Contents()), now, before, callback(old(session).value))
      ensures old(session).Some? ==>
        Contents() == Do(old(Contents()), Refresh(now, before, callback(old(session).value)))
      ensures old(session).None? ==> Contents() == old(Contents()) && r == Returned(Err(InvalidSession))
    {
      if poisoned || session.None? {
        return Returned(Err(InvalidSession));
      }
      if !session.value.NeedsRefresh(now, before) {
        return Returned(Ok(false));
      }
      if session.value.RefreshTokenExpired(now) {
        session := None;
        return Returned(Err(ExpiredRefreshToken));
      }
      handed := handed + [session.value.refreshToken];
      var reply := callback(session.value);
      if reply.Panics? {
        poisoned := true;
        return Unwound;
      }
      if reply.answer.Err? {
        session := None;
        return Returned(Err(reply.answer.error));
      }
      var applied := ApplyRefresh(reply.answer.value, now);
      if applied.Err? {
        session := None;
        return Returned(Err(applied.error));
      }
      return Returned(Ok(true));
    }

    /** Every answer is the stored session itself, its access token still good at `now`. */
    method SessionAfterRefreshIfNeeded(now: i64, before: i64, callback: SessionState -> Reply)
      returns (r: Outcome<SessionState>)
      modifies this
      ensures old(session).Some? ==>
        Contents() == RefreshSession(old(Contents()), now, before, callback(old(session).value)).0
      ensures old(session).Some? ==>
        r == Answer(RefreshSession(old(Contents()), now, before, callback(old(session).value)).1, session)
      ensures old(session).None? ==> Contents() == old(Contents()) && r == Returned(Err(InvalidSession))
      ensures r.Returned? && r.result.Ok? ==>
        && session == Some(r.result.value) && now < r.result.value.accessExpiresAt
        && old(session).Some? && r.result.value.sessionId == old(session).value.sessionId
        && r.result.value.deviceId == old(session).value.deviceId
      ensures r.Returned? && r.result.Err? && !poisoned ==> session.None?
    {
      ghost var started := Contents();
      var refreshed := RefreshIfNeeded(now, before, callback);
      if started.session.Some? {
        UsableAfterRefresh(started, now, before, callback(started.session.value));
      }
      if refreshed.Unwound? {
        return Unwound;
      }
      if refreshed.result.Err? {
        return Returned(Err(refreshed.result.error));
      }
      return Returned(Ok(session.value));
    }

    method AuthorizationHeaderValue(now: i64, before: i64, callback: SessionState -> Reply)
      returns (r: Outcome<string>)
      modifies this
      ensures old(session).Some? ==>
        Contents() == RefreshSession(old(Contents()), now, before, callback(old(session).value)).0
      ensures old(session).Some? ==>
        var answer := Answer(RefreshSession(old(Contents()), now, before, callback(old(session).value)).1, session);
        r == if answer.Unwound? then Unwound
             else if answer.result.Err? then Returned(Err(answer.result.error))
             else if session.value.Valid() then Returned(Ok(session.value.tokenType + " " + session.value.accessToken))
             else Returned(Err(InvalidSession))
      ensures old(session).None? ==> Contents() == old(Contents()) && r == Returned(Err(InvalidSession))
      ensures r.Returned? && r.result.Ok? ==>
        session.Some? && session.value.Valid() && now < session.value.accessExpiresAt
    {
      var current := SessionAfterRefreshIfNeeded(now, before, callback);
      if current.Unwound? {
        return Unwound;
      }
      if current.result.Err? {
        return Returned(Err(current.result.error));
      }
      var s := current.result.value;
      var valid := s.Validate();
      if valid.Err? {
        return Returned(Err(valid.error));
      }
      return Returned(Ok(s.tokenType + " " + s.accessToken));
    }
  }

  /** For every clock value, margin and lifetime, saturating ones included: a call that succeeds leaves
      a session whose access token is good at `now` and whose identity is unchanged; a call that
      fails leaves none. */
  lemma UsableAfterRefresh(g: Guarded, now: i64, before: i64, reply: Reply)
    ensures var (after, outcome) := RefreshSession(g, now, before, reply);
      && (outcome.Returned? && outcome.result.Ok? ==>
            && g.session.Some? && after.session.Some?
            && now < after.session.value.accessExpiresAt
            && after.session.value.sessionId == g.session.value.sessionId
            && after.session.value.deviceId == g.session.value.deviceId
            && (outcome.result.value ==> after.session.value.Valid())
            && (!outcome.result.value ==> after == g))
      && (outcome.Returned? && outcome.result.Err? && !after.poisoned ==> after.session.None?)
  {
    if g.session.Some? && reply.Answers? && reply.answer.Ok?
       && g.session.value.ApplyRefresh(reply.answer.value, now).1.Ok? {
      AcceptedRefresh(g.session.value, reply.answer.value, now);
    }
  }

  /** The callback is asked exactly when the access token is due within the margin and the refresh token
      is still good; saturation never changes that decision. */
  lemma CallbackAskedIffDue(g: Guarded, now: i64, before: i64, reply: Reply)
    ensures var after := RefreshSession(g, now, before, reply).0;
      var asked := !g.poisoned && g.session.Some?
        && now + (if before < 0 then 0 else before) >= g.session.value.accessExpiresAt
        && now < g.session.value.refreshExpiresAt;
      after.handed == g.handed + if asked then [g.session.value.refreshToken] else []
  {
  }

  /** How a call ends, by the two expiries and the reply alone. */
  lemma RefreshEndsBy(g: Guarded, now: i64, before: i64, reply: Reply)
    requires !g.poisoned && g.session.Some?
    ensures var (after, outcome) := RefreshSession(g, now, before, reply);
      var s := g.session.value;
      var due := now + (if before < 0 then 0 else before) >= s.accessExpiresAt;
      && (outcome == Returned(Ok(false)) <==> !due)
      && (due && now >= s.refreshExpiresAt ==>
            outcome == Returned(Err(ExpiredRefreshToken)) && after == g.(session := None))
      && (due && now < s.refreshExpiresAt ==>
            match reply
            case Panics => outcome == Unwound && after.poisoned
            case Answers(Err(error)) => outcome == Returned(Err(error)) && after.session == None && !after.poisoned
            case Answers(Ok(refresh)) =>
              && !after.poisoned
              && match s.ApplyRefresh(refresh, now).1
                 case Ok(_) => outcome == Returned(Ok(true)) && after.session == Some(s.ApplyRefresh(refresh, now).0)
                 case Err(error) => outcome == Returned(Err(error)) && after.session == None)
  {
  }

  // ---- runs of interleaved calls -----------------------------------------------------------------

  /** Calls hold the mutex from start to end, so concurrent callers amount to some sequence of calls. */
  datatype Call =
    | Refresh(now: i64, before: i64, reply: Reply)
    | Set(next: SessionState)
    | Clear

  function Do(g: Guarded, call: Call): Guarded {
    match call
    case Refresh(now, before, reply) => RefreshSession(g, now, before, reply).0
    case Set(next) => if next.Valid() && !g.poisoned then g.(session := Some(next)) else g
    case Clear => if g.poisoned then g else g.(session := None)
  }

  function Run(g: Guarded, calls: seq<Call>): Guarded
    decreases |calls|
  {
    if calls == [] then g else Run(Do(g, calls[0]), calls[1..])
  }

  /** The refresh token that a call can bring in. */
  function Offered(call: Call): Option<string> {
    match call
    case Refresh(_, _, Answers(Ok(refresh))) => Some(refresh.refreshToken)
    case Set(next) => Some(next.refreshToken)
    case _ => None
  }

  /** Every offered refresh token is new: not seen at the start and not offered earlier. */
  predicate FreshTokens(seen: set<string>, calls: seq<Call>)
    decreases |calls|
  {
    if calls == [] then true
    else
      var offered := Offered(calls[0]);
      && (offered.Some? ==> offered.value !in seen)
      && FreshTokens(if offered.Some? then seen + {offered.value} else seen, calls[1..])
  }

  predicate NoRepeats(tokens: seq<string>) {
    forall i, j | 0 <= i < j < |tokens| :: tokens[i] != tokens[j]
  }

  /** Tokens handed out are distinct and known, and the stored token can still be handed out: it was
      not handed out before, unless a panic has closed the manager for good. */
  ghost predicate TokenInv(g: Guarded, seen: set<string>) {
    && NoRepeats(g.handed)
    && (forall i | 0 <= i < |g.handed| :: g.handed[i] in seen)
    && (g.session.Some? ==> g.session.value.refreshToken in seen)
    && (g.session.Some? && !g.poisoned ==> g.session.value.refreshToken !in g.handed)
  }

  lemma CallKeepsTokenInv(g: Guarded, seen: set<string>, call: Call)
    requires TokenInv(g, seen)
    requires Offered(call).Some? ==> Offered(call).value !in seen
    ensures TokenInv(Do(g, call), if Offered(call).Some? then seen + {Offered(call).value} else seen)
  {
  }

  /** No refresh token is ever handed to a callback twice, whatever the interleaving, provided every
      answer and every stored session brings a new one. */
  lemma {:induction false} NoTokenHandedTwice(g: Guarded, seen: set<string>, calls: seq<Call>)
    requires TokenInv(g, seen) && FreshTokens(seen, calls)
    ensures NoRepeats(Run(g, calls).handed)
    decreases |calls|
  {
    if calls != [] {
      CallKeepsTokenInv(g, seen, calls[0]);
      var offered := Offered(calls[0]);
      NoTokenHandedTwice(Do(g, calls[0]), if offered.Some? then seen + {offered.value} else seen, calls[1..]);
    }
  }

  lemma CallKeepsValid(g: Guarded, call: Call)
    requires g.session.Some? ==> g.session.value.Valid()
    ensures Do(g, call).session.Some? ==> Do(g, call).session.value.Valid()
  {
    if call.Refresh? {
      UsableAfterRefresh(g, call.now, call.before, call.reply);
    }
  }

  /** From no session or a valid one, the stored session is valid after every run: the half-applied
      state of a failed refresh is never seen. */
  lemma {:induction false} StoredSessionStaysValid(g: Guarded, calls: seq<Call>)
    requires g.session.Some? ==> g.session.value.Valid()
    ensures var end := Run(g, calls); end.session.Some? ==> end.session.value.Valid()
    decreases |calls|
  {
    if calls != [] {
      CallKeepsValid(g, calls[0]);
      StoredSessionStaysValid(Do(g, calls[0]), calls[1..]);
    }
  }

  /** What a refresh is refused for before anything is assigned. */
  predicate RefusedAtOnce(refresh: SessionRefresh) {
    || IsBlank(refresh.accessToken) || IsBlank(refresh.refreshToken)
    || refresh.expiresIn <= 0 || refresh.refreshExpiresIn <= 0
    || NormalizeTokenType(refresh.tokenType).Err?
  }

  lemma NormalizedTypeIsNotBlank(tokenType: Option<string>)
    requires NormalizeTokenType(tokenType).Ok?
    ensures !IsBlank(NormalizeTokenType(tokenType).value)
  {
  }

  /** A refresh leaves a valid session valid exactly when it is refused before the assignments, or its
      saturated expiries are positive and ordered; it is accepted exactly in the second case. */
  lemma RefreshLeavesValidIff(s: SessionState, refresh: SessionRefresh, now: i64)
    requires s.Valid()
    ensures var ordered := 0 < SaturatingAdd(now, refresh.expiresIn) < SaturatingAdd(now, refresh.refreshExpiresIn);
      && (s.ApplyRefresh(refresh, now).0.Valid() <==> RefusedAtOnce(refresh) || ordered)
      && (s.ApplyRefresh(refresh, now).1.Ok? <==> !RefusedAtOnce(refresh) && ordered)
      && (RefusedAtOnce(refresh) ==> s.ApplyRefresh(refresh, now).0 == s)
  {
    if !RefusedAtOnce(refresh) {
      NormalizedTypeIsNotBlank(refresh.tokenType);
    }
  }

  /** Without that clearing it would be: some refresh of a valid session fails with a changed, invalid
      state. */
  lemma FailedRefreshLeavesInvalidState()
    ensures exists s: SessionState, refresh: SessionRefresh, now: i64 ::
      s.Valid() && s.ApplyRefresh(refresh, now).1.Err? && !s.ApplyRefresh(refresh, now).0.Valid()
  {
    var s := SessionState("s", "d", "Bearer", "a", "r", 10, 20, "");
    var refresh := SessionRefresh("a2", "r2", None, 7, 7, "");
    assert !IsWhitespace("s"[0]) && !IsWhitespace("d"[0]) && !IsWhitespace("a"[0]) && !IsWhitespace("r"[0]);
    assert !IsWhitespace("a2"[0]) && !IsWhitespace("r2"[0]) && !IsWhitespace("Bearer"[0]);
    TrimKeeps("Bearer");
    assert NormalizeTokenType(None) == Ok("Bearer");
    assert s.Valid();
    assert s.ApplyRefresh(refresh, 1).0.accessExpiresAt == 8 == s.ApplyRefresh(refresh, 1).0.refreshExpiresAt;
  }
}
