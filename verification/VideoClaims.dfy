/** The leased queue of videos waiting for processing. Workers and immediate tasks claim rows of the
    asset table; a claim is a lease of ten minutes that is renewed by nothing but another claim. */
module VideoClaims {
  import opened Wrappers
  import Strings = Text
  import Messages

  type Id = int
  type Time = int

  const LEASE := 600
  const BATCH_SIZE := 5
  const MAX_INT := 0x7FFF_FFFF

  datatype Status = Processing | Ready | Failed | Deleted

  /** A JSON value as far as the claim statements look into it. */
  datatype Json = Null | Number(n: int) | Text(text: string) | Other

  type Metadata = map<string, Json>

  datatype Row = Row(
    isVideo: bool, status: Status, deleted: bool, createdAt: Time, updatedAt: Time, metadata: Metadata)

  /** The log keeps what happened to each row's lease: a claim with its time and attempt number, or a
      replacement of the metadata in which the lease is written. */
  datatype Entry = Claimed(id: Id, at: Time, attempts: int) | Replaced(id: Id)

  datatype Queue = Queue(now: Time, rows: map<Id, Row>, log: seq<Entry>)

  datatype Event =
    | Tick(seconds: nat)
    | Insert(id: Id, isVideo: bool, metadata: Metadata)
    | ClaimBatch(locked: set<Id>, ids: seq<Id>)
    | ClaimOne(id: Id)
    | MarkReady(id: Id, metadata: Metadata)
    | MarkFailed(id: Id, error: string)
    | Patch(id: Id, replacement: Option<Metadata>)
    | Delete(id: Id)

  predicate IsCount(text: string) {
    text != [] && forall i | 0 <= i < |text| :: '0' <= text[i] <= '9'
  }

  /** The attempt counter when its text is a run of digits. */
  function Attempts(metadata: Metadata): Option<int> {
    if "processingAttempts" !in metadata then None
    else match metadata["processingAttempts"]
      case Number(n) => if n >= 0 then Some(n) else None
      case Text(text) => if IsCount(text) then Some(Strings.DigitsValue(text)) else None
      case _ => None
  }

  function NextAttempt(metadata: Metadata): int {
    if Attempts(metadata).Some? then Attempts(metadata).value + 1 else 1
  }

  predicate Started(metadata: Metadata) {
    "processingStartedAt" in metadata && metadata["processingStartedAt"] != Null
  }

  predicate Eligible(row: Row, now: Time) {
    && row.isVideo && row.status == Processing && !row.deleted
    && (!Started(row.metadata) || row.updatedAt < now - LEASE)
  }

  /** The counter is a 32-bit integer; past its end the statement fails and changes nothing. */
  predicate Claimable(q: Queue, id: Id) {
    id in q.rows && Eligible(q.rows[id], q.now) && NextAttempt(q.rows[id].metadata) <= MAX_INT
  }

  function ClaimedRow(row: Row, now: Time): Row {
    row.(updatedAt := now,
         metadata := row.metadata["processingStartedAt" := Text("now")]
                                 ["processingAttempts" := Number(NextAttempt(row.metadata))])
  }

  function ClaimRow(q: Queue, id: Id): Queue
    requires id in q.rows
  {
    var row := ClaimedRow(q.rows[id], q.now);
    q.(rows := q.rows[id := row], log := q.log + [Claimed(id, q.now, NextAttempt(q.rows[id].metadata))])
  }

  predicate Distinct(ids: seq<Id>) {
    forall i, j | 0 <= i < j < |ids| :: ids[i] != ids[j]
  }

  /** By age, and rows of one age by id. */
  predicate Older(q: Queue, a: Id, b: Id) {
    a in q.rows && b in q.rows
    && (q.rows[a].createdAt < q.rows[b].createdAt || (q.rows[a].createdAt == q.rows[b].createdAt && a < b))
  }

  predicate Pending(q: Queue, locked: set<Id>, id: Id) {
    id in q.rows && Eligible(q.rows[id], q.now) && id !in locked
  }

  /** The batch statement takes the oldest eligible rows, at most five, in order; rows locked by another
      statement are skipped. */
  predicate BatchChosen(q: Queue, locked: set<Id>, ids: seq<Id>) {
    && |ids| <= BATCH_SIZE
    && (forall i | 0 <= i < |ids| :: Pending(q, locked, ids[i]))
    && (forall i, j | 0 <= i < j < |ids| :: Older(q, ids[i], ids[j]))
    && (forall id | id in q.rows && Pending(q, locked, id) && id !in ids ::
          |ids| == BATCH_SIZE && forall i | 0 <= i < |ids| :: Older(q, ids[i], id))
  }

  /** One counter past its end fails the whole statement. */
  predicate BatchAllowed(q: Queue, locked: set<Id>, ids: seq<Id>) {
    BatchChosen(q, locked, ids) && forall i | 0 <= i < |ids| :: Claimable(q, ids[i])
  }

  lemma ChosenAreDistinct(q: Queue, locked: set<Id>, ids: seq<Id>)
    requires BatchChosen(q, locked, ids)
    ensures Distinct(ids)
  {
  }

  function ClaimAll(q: Queue, ids: seq<Id>): (after: Queue)
    requires forall i | 0 <= i < |ids| :: ids[i] in q.rows
    ensures after.rows.Keys == q.rows.Keys
    decreases |ids|
  {
    if ids == [] then q else ClaimAll(ClaimRow(q, ids[0]), ids[1..])
  }

  predicate Undeleted(q: Queue, id: Id) {
    id in q.rows && !q.rows[id].deleted
  }

  function FailedMetadata(metadata: Metadata, error: string): Metadata {
    metadata["processingError" := Text(error)]["processingFailedAt" := Text("now")]
  }

  function Step(q: Queue, e: Event): Queue {
    match e
    case Tick(seconds) => q.(now := q.now + seconds)
    case Insert(id, isVideo, metadata) =>
      if id in q.rows then q
      else q.(rows := q.rows[id := Row(isVideo, if isVideo then Processing else Ready, false, q.now, q.now, metadata)])
    case ClaimBatch(locked, ids) => if BatchAllowed(q, locked, ids) then ClaimAll(q, ids) else q
    case ClaimOne(id) => if Claimable(q, id) then ClaimRow(q, id) else q
    case MarkReady(id, metadata) =>
      if Undeleted(q, id)
      then q.(rows := q.rows[id := q.rows[id].(status := Ready, metadata := metadata, updatedAt := q.now)])
      else q
    case MarkFailed(id, error) =>
      if Undeleted(q, id)
      then q.(rows := q.rows[id := q.rows[id].(
             status := Failed, updatedAt := q.now, metadata := FailedMetadata(q.rows[id].metadata, error))])
      else q
    case Patch(id, metadata) =>
      if Undeleted(q, id)
      then q.(rows := q.rows[id := q.rows[id].(
                metadata := if metadata.Some? then metadata.value else q.rows[id].metadata, updatedAt := q.now)],
              log := if metadata.Some? then q.log + [Replaced(id)] else q.log)
      else q
    case Delete(id) =>
      if Undeleted(q, id)
      then q.(rows := q.rows[id := q.rows[id].(status := Deleted, deleted := true, updatedAt := q.now)])
      else q
  }

  function Run(q: Queue, events: seq<Event>): Queue
    decreases |events|
  {
    if events == [] then q else Run(Step(q, events[0]), events[1..])
  }

  // ---- spacing of claims ---------------------------------------------------------------------

  /** The latest entry about a row. */
  function Latest(log: seq<Entry>, id: Id): Option<Entry>
    decreases |log|
  {
    if log == [] then None
    else if log[|log| - 1].id == id then Some(log[|log| - 1])
    else Latest(log[..|log| - 1], id)
  }

  /** A claim that follows another claim of the same row, with no metadata replacement in between,
      comes more than ten minutes later and is numbered one higher. */
  predicate Follows(before: Option<Entry>, claim: Entry)
    requires claim.Claimed?
  {
    before.Some? && before.value.Claimed? ==>
      claim.at - before.value.at > LEASE && claim.attempts == before.value.attempts + 1
  }

  ghost predicate Spaced(log: seq<Entry>) {
    forall j | 0 <= j < |log| && log[j].Claimed? :: Follows(Latest(log[..j], log[j].id), log[j])
  }

  /** While a row still awaits processing, the lease of its latest claim stands in its metadata. */
  ghost predicate LeasesHeld(q: Queue) {
    forall id | id in q.rows && q.rows[id].status == Processing ::
      var last := Latest(q.log, id);
      last.Some? && last.value.Claimed? ==>
        && Started(q.rows[id].metadata) && q.rows[id].updatedAt >= last.value.at
        && Attempts(q.rows[id].metadata) == Some(last.value.attempts)
  }

  ghost predicate LogKnowsRows(q: Queue) {
    forall id :: Latest(q.log, id).Some? ==> id in q.rows
  }

  /** The clock has not run behind any row. */
  ghost predicate ClockLeads(q: Queue) {
    forall id | id in q.rows :: q.rows[id].updatedAt <= q.now
  }

  ghost predicate Inv(q: Queue) {
    LeasesHeld(q) && LogKnowsRows(q) && ClockLeads(q) && Spaced(q.log)
  }

  lemma LatestAfterAppend(log: seq<Entry>, entry: Entry, id: Id)
    ensures Latest(log + [entry], id) == if entry.id == id then Some(entry) else Latest(log, id)
  {
    assert (log + [entry])[..|log|] == log;
  }

  lemma SpacedAfterAppend(log: seq<Entry>, entry: Entry)
    requires Spaced(log) && (entry.Claimed? ==> Follows(Latest(log, entry.id), entry))
    ensures Spaced(log + [entry])
  {
    forall j | 0 <= j < |log + [entry]| && (log + [entry])[j].Claimed?
      ensures Follows(Latest((log + [entry])[..j], (log + [entry])[j].id), (log + [entry])[j])
    {
      assert (log + [entry])[..j] == log[..j];
      assert log[..|log|] == log;
    }
  }

  lemma {:induction false} CountIsNatural(text: string)
    requires text == "" || IsCount(text)
    ensures Strings.DigitsValue(text) >= 0
    decreases |text|
  {
    if text != "" {
      CountIsNatural(text[..|text| - 1]);
    }
  }

  /** Attempts are counted from one. */
  lemma NextAttemptIsPositive(metadata: Metadata)
    ensures NextAttempt(metadata) >= 1
  {
    if "processingAttempts" in metadata {
      match metadata["processingAttempts"]
      case Text(text) =>
        if IsCount(text) {
          CountIsNatural(text);
        }
      case _ =>
    }
  }

  lemma ClaimKeepsInv(q: Queue, id: Id)
    requires Inv(q) && Claimable(q, id)
    ensures Inv(ClaimRow(q, id))
  {
    var entry := Claimed(id, q.now, NextAttempt(q.rows[id].metadata));
    NextAttemptIsPositive(q.rows[id].metadata);
    SpacedAfterAppend(q.log, entry);
    forall other
      ensures Latest(ClaimRow(q, id).log, other) == if id == other then Some(entry) else Latest(q.log, other)
    {
      LatestAfterAppend(q.log, entry, other);
    }
  }

  lemma {:induction false} ClaimAllKeepsInv(q: Queue, ids: seq<Id>)
    requires Inv(q) && Distinct(ids)
    requires forall i | 0 <= i < |ids| :: ids[i] in q.rows && Claimable(q, ids[i])
    ensures Inv(ClaimAll(q, ids))
    decreases |ids|
  {
    if ids != [] {
      ClaimKeepsInv(q, ids[0]);
      var after := ClaimRow(q, ids[0]);
      forall i | 0 <= i < |ids[1..]|
        ensures Claimable(after, ids[1..][i])
      {
        assert ids[1..][i] == ids[i + 1];
      }
      ClaimAllKeepsInv(after, ids[1..]);
    }
  }

  lemma StepKeepsInv(q: Queue, e: Event)
    requires Inv(q)
    ensures Inv(Step(q, e))
  {
    match e
    case ClaimBatch(locked, ids) =>
      if BatchAllowed(q, locked, ids) {
        ChosenAreDistinct(q, locked, ids);
        ClaimAllKeepsInv(q, ids);
      }
    case ClaimOne(id) =>
      if Claimable(q, id) {
        ClaimKeepsInv(q, id);
      }
    case Patch(id, replacement) =>
      if Undeleted(q, id) && replacement.Some? {
        ReplacementKeepsInv(q, id, replacement.value);
      }
    case _ =>
  }

  lemma ReplacementKeepsInv(q: Queue, id: Id, metadata: Metadata)
    requires Inv(q) && Undeleted(q, id)
    ensures Inv(Step(q, Patch(id, Some(metadata))))
  {
    var entry := Replaced(id);
    SpacedAfterAppend(q.log, entry);
    forall other
      ensures Latest(q.log + [entry], other) == if id == other then Some(entry) else Latest(q.log, other)
    {
      LatestAfterAppend(q.log, entry, other);
    }
  }

  lemma {:induction false} RunKeepsInv(q: Queue, events: seq<Event>)
    requires Inv(q)
    ensures Inv(Run(q, events))
    decreases |events|
  {
    if events != [] {
      StepKeepsInv(q, events[0]);
      RunKeepsInv(Step(q, events[0]), events[1..]);
    }
  }

  predicate Silent(log: seq<Entry>, id: Id, first: nat, last: nat)
    requires last <= |log|
  {
    forall k | first < k < last :: log[k].id != id
  }

  lemma {:induction false} LatestIsNearest(log: seq<Entry>, id: Id, i: nat)
    requires i < |log| && log[i].id == id && Silent(log, id, i, |log|)
    ensures Latest(log, id) == Some(log[i])
    decreases |log|
  {
    if i < |log| - 1 {
      LatestIsNearest(log[..|log| - 1], id, i);
    }
  }

  /** Over every run from an empty log, two successive claims of one video with no metadata
      replacement in between are more than ten minutes apart and count up by exactly one. */
  lemma SuccessiveClaims(q: Queue, events: seq<Event>, id: Id, i: nat, j: nat)
    requires q.log == [] && ClockLeads(q)
    requires var log := Run(q, events).log;
      && i < j < |log| && log[i].Claimed? && log[j].Claimed? && log[i].id == log[j].id == id
      && Silent(log, id, i, j)
    ensures var log := Run(q, events).log;
      log[j].at - log[i].at > LEASE && log[j].attempts == log[i].attempts + 1
  {
    RunKeepsInv(q, events);
    var log := Run(q, events).log;
    LatestIsNearest(log[..j], id, i);
    assert Follows(Latest(log[..j], id), log[j]);
  }

  /** Left alone, a claimed row can be claimed again exactly when more than ten minutes have passed. */
  lemma LeaseLastsTenMinutes(q: Queue, id: Id, seconds: nat)
    requires Claimable(q, id)
    ensures var later := Step(ClaimRow(q, id), Tick(seconds)); Eligible(later.rows[id], later.now) <==> seconds > LEASE
  {
  }

  /** A row can be claimed exactly if it is an undeleted video that awaits processing, and either no start is
      recorded or the row has not changed for more than ten minutes. */
  lemma EligibleIff(row: Row, now: Time)
    ensures Eligible(row, now) <==>
      && row.isVideo && row.status == Processing && !row.deleted
      && ("processingStartedAt" !in row.metadata || row.metadata["processingStartedAt"] == Null
          || now - row.updatedAt > 600)
  {
  }

  lemma FindLater(ids: seq<Id>, k: nat, id: Id) returns (j: nat)
    requires k <= |ids| && id in ids && id !in ids[..k]
    ensures k <= j < |ids| && ids[j] == id
  {
    assert ids == ids[..k] + ids[k..];
    var m :| 0 <= m < |ids[k..]| && ids[k..][m] == id;
    j := k + m;
  }

  /** What a batch takes: at most five rows, each eligible and not locked, from the oldest on. */
  lemma BatchTakesTheOldest(q: Queue, locked: set<Id>, ids: seq<Id>, i: nat)
    requires BatchChosen(q, locked, ids) && i < |ids|
    ensures |ids| <= 5 && ids[i] in q.rows && Eligible(q.rows[ids[i]], q.now) && ids[i] !in locked
    ensures forall id | id in q.rows && Eligible(q.rows[id], q.now) && id !in locked && id !in ids[..i + 1] ::
      && (id in ids || |ids| == 5)
      && q.rows[ids[i]].createdAt <= q.rows[id].createdAt
      && (q.rows[ids[i]].createdAt == q.rows[id].createdAt ==> ids[i] < id)
  {
    forall id | id in q.rows && Eligible(q.rows[id], q.now) && id !in locked && id !in ids[..i + 1]
      ensures (id in ids || |ids| == 5) && Older(q, ids[i], id)
    {
      if id in ids {
        var j := FindLater(ids, i + 1, id);
      } else {
        assert Pending(q, locked, id);
      }
    }
  }

  /** Beyond the largest 32-bit number there is no next attempt: a claim of such a row, or a batch with one, fails
      and changes nothing. */
  lemma AttemptsMustFit(q: Queue, locked: set<Id>, ids: seq<Id>, id: Id)
    requires BatchChosen(q, locked, ids)
    ensures var fits := forall i | 0 <= i < |ids| :: NextAttempt(q.rows[ids[i]].metadata) <= 2147483647;
      Step(q, ClaimBatch(locked, ids)) == if fits then ClaimAll(q, ids) else q
    ensures Step(q, ClaimOne(id))
         == if id in q.rows && Eligible(q.rows[id], q.now) && NextAttempt(q.rows[id].metadata) <= 2147483647
            then ClaimRow(q, id) else q
  {
    forall i | 0 <= i < |ids| ensures Claimable(q, ids[i]) <==> NextAttempt(q.rows[ids[i]].metadata) <= 2147483647 {
      assert Pending(q, locked, ids[i]);
    }
  }

  /** An empty batch means that nothing was there to take. */
  lemma EmptyBatchIff(q: Queue, locked: set<Id>, ids: seq<Id>)
    requires BatchChosen(q, locked, ids)
    ensures ids == [] <==> forall id | id in q.rows && Eligible(q.rows[id], q.now) :: id in locked
  {
    if ids != [] {
      assert Pending(q, locked, ids[0]);
    }
    assert forall id | id in q.rows && Eligible(q.rows[id], q.now) && id !in locked :: Pending(q, locked, id);
  }

  /** What a claim writes: the time, a start and the next attempt; all else stays. */
  lemma ClaimWrites(q: Queue, id: Id)
    requires id in q.rows
    ensures var before, after := q.rows[id], ClaimRow(q, id).rows[id];
      && after.updatedAt == q.now && Started(after.metadata)
      && "processingAttempts" in after.metadata
      && after.metadata["processingAttempts"] == Number(NextAttempt(before.metadata))
      && (forall key | key !in {"processingStartedAt", "processingAttempts"} ::
            (key in after.metadata <==> key in before.metadata)
            && (key in before.metadata ==> after.metadata[key] == before.metadata[key]))
      && after == before.(updatedAt := after.updatedAt, metadata := after.metadata)
      && ClaimRow(q, id).rows == q.rows[id := after]
  {
  }

  /** A new row awaits processing exactly if it is a video. */
  lemma InsertWrites(q: Queue, id: Id, isVideo: bool, metadata: Metadata)
    requires id !in q.rows
    ensures var after := Step(q, Insert(id, isVideo, metadata));
      && id in after.rows && after == q.(rows := q.rows[id := after.rows[id]])
      && var row := after.rows[id];
        && row.isVideo == isVideo && !row.deleted && row.metadata == metadata && row.createdAt == q.now == row.updatedAt
        && row.status == (if isVideo then Processing else Ready)
        && (Eligible(row, q.now) <==> isVideo && !Started(metadata))
  {
  }

  /** A patch renews the time of an undeleted row and replaces its metadata if it has some; a deletion marks the
      row; neither touches a deleted one. */
  lemma PatchAndDeleteWrite(q: Queue, id: Id, metadata: Option<Metadata>)
    ensures var patched, deleted := Step(q, Patch(id, metadata)), Step(q, Delete(id));
      if id in q.rows && !q.rows[id].deleted then
        var row := q.rows[id];
        && patched.rows == q.rows[id := row.(updatedAt := q.now,
             metadata := match metadata case Some(replacement) => replacement case None => row.metadata)]
        && patched.log == (if metadata == None then q.log else q.log + [Replaced(id)])
        && deleted == q.(rows := deleted.rows) && deleted.rows.Keys == q.rows.Keys
        && deleted.rows[id].deleted && deleted.rows[id].status == Deleted && deleted.rows[id].updatedAt == q.now
        && deleted.rows[id].metadata == row.metadata
        && forall other | other in q.rows && other != id :: deleted.rows[other] == q.rows[other]
      else patched == q == deleted
  {
  }

  /** The replacement matters: writing metadata without a lease frees the row at once, however
      recent the claim, as long as the row still awaits processing. */
  lemma ReplacementFreesTheRow(q: Queue, id: Id, metadata: Metadata)
    requires Undeleted(q, id) && q.rows[id].isVideo
    ensures var after := Step(q, Patch(id, Some(metadata)));
      Eligible(after.rows[id], after.now) <==> q.rows[id].status == Processing && !Started(metadata)
  {
  }

  /** So it frees it: a claim, a replacement and a second claim can all come at one moment, the count
      starting afresh. */
  lemma ClaimPatchClaim(q: Queue, id: Id, metadata: Metadata)
    requires Claimable(q, id) && !Started(metadata) && NextAttempt(metadata) <= MAX_INT
    ensures Run(q, [ClaimOne(id), Patch(id, Some(metadata)), ClaimOne(id)]).log == q.log +
      [Claimed(id, q.now, NextAttempt(q.rows[id].metadata)), Replaced(id), Claimed(id, q.now, NextAttempt(metadata))]
  {
    var events := [ClaimOne(id), Patch(id, Some(metadata)), ClaimOne(id)];
    var q1 := Step(q, events[0]);
    var q2 := Step(q1, events[1]);
    assert Claimable(q2, id);
    assert Run(q2, events[1..][1..]) == Run(Step(q2, events[2]), events[1..][1..][1..]);
    assert Run(q, events) == Step(q2, events[2]);
  }

  // ---- what attempts count ---------------------------------------------------------------------

  predicate Zeros(text: string) {
    forall i | 0 <= i < |text| :: text[i] == '0'
  }

  lemma {:induction false} LeadingZerosDoNotCount(zeros: string, text: string)
    requires Zeros(zeros)
    ensures Strings.DigitsValue(zeros + text) == Strings.DigitsValue(text)
    decreases |zeros| + |text|
  {
    if text != "" {
      LeadingZerosDoNotCount(zeros, text[..|text| - 1]);
      assert (zeros + text)[..|zeros + text| - 1] == zeros + text[..|text| - 1];
    } else if zeros != "" {
      LeadingZerosDoNotCount(zeros[..|zeros| - 1], "");
      assert zeros + text == zeros && zeros[..|zeros| - 1] + "" == zeros[..|zeros| - 1];
    }
  }

  lemma DecimalGrows(tens: nat, last: nat)
    requires last <= 9
    ensures Messages.Decimal(10 * tens + last)
         == (if tens == 0 then "" else Messages.Decimal(tens)) + ['0' + last as char]
    ensures Messages.Decimal(0) == "0"
  {
    assert tens > 0 ==> (10 * tens + last) / 10 == tens && (10 * tens + last) % 10 == last;
  }

  /** One digit more, after zeros and a decimal number. */
  lemma DigitAfterDecimal(zeros: string, tens: nat, last: nat) returns (longer: string)
    requires Zeros(zeros) && last <= 9
    ensures Zeros(longer)
    ensures zeros + Messages.Decimal(tens) + ['0' + last as char] == longer + Messages.Decimal(10 * tens + last)
  {
    DecimalGrows(tens, last);
    if tens == 0 {
      longer := zeros + "0";
    } else {
      longer := zeros;
      Regrouped(zeros, Messages.Decimal(tens), ['0' + last as char]);
    }
  }

  lemma Regrouped(a: string, b: string, c: string)
    ensures a + (b + c) == a + b + c
  {
  }

  /** A run of digits writes a number in decimal, with zeros in front. */
  lemma {:induction false} CountIsDecimal(text: string) returns (zeros: string, n: nat)
    requires IsCount(text)
    ensures Zeros(zeros) && text == zeros + Messages.Decimal(n) && Strings.DigitsValue(text) == n
    decreases |text|
  {
    var front, last: nat := text[..|text| - 1], text[|text| - 1] as int - '0' as int;
    assert text == front + ['0' + last as char];
    if front == "" {
      zeros, n := "", last;
      DecimalGrows(0, last);
    } else {
      var shorter, tens := CountIsDecimal(front);
      zeros := DigitAfterDecimal(shorter, tens, last);
      n := 10 * tens + last;
    }
  }

  lemma ZerosAndDecimalCount(zeros: string, n: nat)
    requires Zeros(zeros)
    ensures IsCount(zeros + Messages.Decimal(n)) && Strings.DigitsValue(zeros + Messages.Decimal(n)) == n
  {
    Messages.DigitsReadBack(n);
    assert Messages.Decimal(n) == Messages.Digits(n);
    LeadingZerosDoNotCount(zeros, Messages.Decimal(n));
  }

  /** The JSON value counts `n`: it is the number, or a text that writes it in decimal, zeros in front
      allowed. */
  ghost predicate Counts(counter: Json, n: nat) {
    match counter
    case Number(value) => value == n
    case Text(text) => exists k | 0 <= k <= |text| :: Zeros(text[..k]) && text[k..] == Messages.Decimal(n)
    case Null => false
    case Other => false
  }

  /** A claim writes the number after the one that the metadata count, and 1 if they count none. */
  lemma ClaimCountsOn(metadata: Metadata)
    ensures forall n: nat | "processingAttempts" in metadata && Counts(metadata["processingAttempts"], n) ::
      NextAttempt(metadata) == n + 1
    ensures (forall n: nat :: !("processingAttempts" in metadata && Counts(metadata["processingAttempts"], n)))
      ==> NextAttempt(metadata) == 1
  {
    if "processingAttempts" in metadata && metadata["processingAttempts"].Text? {
      var text := metadata["processingAttempts"].text;
      forall n: nat | Counts(Text(text), n) ensures NextAttempt(metadata) == n + 1 {
        var k :| 0 <= k <= |text| && Zeros(text[..k]) && text[k..] == Messages.Decimal(n);
        ZerosAndDecimalCount(text[..k], n);
        assert text == text[..k] + text[k..];
      }
      if IsCount(text) {
        var zeros, n := CountIsDecimal(text);
        assert text[..|zeros|] == zeros && text[|zeros|..] == Messages.Decimal(n);
        assert Counts(metadata["processingAttempts"], n);
      }
    } else if "processingAttempts" in metadata && metadata["processingAttempts"].Number? {
      var n := metadata["processingAttempts"].n;
      assert n >= 0 ==> Counts(metadata["processingAttempts"], n);
    }
  }

  function ClaimCount(log: seq<Entry>, id: Id): nat
    decreases |log|
  {
    if log == [] then 0
    else ClaimCount(log[..|log| - 1], id) + if log[|log| - 1].Claimed? && log[|log| - 1].id == id then 1 else 0
  }

  lemma CountAfterAppend(log: seq<Entry>, entry: Entry, id: Id)
    ensures ClaimCount(log + [entry], id) == ClaimCount(log, id) + if entry.Claimed? && entry.id == id then 1 else 0
  {
    assert (log + [entry])[..|log|] == log;
  }

  predicate Unreplaced(log: seq<Entry>, id: Id) {
    forall i | 0 <= i < |log| :: log[i] != Replaced(id)
  }

  /** The claims of the video are numbered from one. */
  ghost predicate Numbered(log: seq<Entry>, id: Id) {
    forall j | 0 <= j < |log| && log[j].Claimed? && log[j].id == id :: log[j].attempts == ClaimCount(log[..j], id) + 1
  }

  /** While the row awaits processing, its metadata hold the number of its claims, or nothing before the
      first. */
  predicate HoldsCount(row: Row, claims: nat) {
    row.status == Processing ==>
      if claims == 0 then "processingAttempts" !in row.metadata
      else "processingAttempts" in row.metadata && row.metadata["processingAttempts"] == Number(claims)
  }

  ghost predicate Counted(q: Queue, id: Id) {
    id in q.rows && (Unreplaced(q.log, id) ==> Numbered(q.log, id) && HoldsCount(q.rows[id], ClaimCount(q.log, id)))
  }

  lemma NumberedAfterAppend(log: seq<Entry>, entry: Entry, id: Id)
    requires Numbered(log, id)
    requires entry.Claimed? && entry.id == id ==> entry.attempts == ClaimCount(log, id) + 1
    ensures Numbered(log + [entry], id)
  {
    forall j | 0 <= j < |log + [entry]| && (log + [entry])[j].Claimed? && (log + [entry])[j].id == id
      ensures (log + [entry])[j].attempts == ClaimCount((log + [entry])[..j], id) + 1
    {
      assert (log + [entry])[..j] == log[..j];
      assert log[..|log|] == log;
    }
  }

  lemma UnreplacedBefore(log: seq<Entry>, entry: Entry, id: Id)
    ensures Unreplaced(log + [entry], id) <==> Unreplaced(log, id) && entry != Replaced(id)
  {
    assert (log + [entry])[|log|] == entry;
    assert forall i | 0 <= i < |log| :: (log + [entry])[i] == log[i];
  }

  lemma ClaimKeepsCounted(q: Queue, claimed: Id, id: Id)
    requires Counted(q, id) && claimed in q.rows && q.rows[claimed].status == Processing
    ensures Counted(ClaimRow(q, claimed), id)
  {
    var entry := Claimed(claimed, q.now, NextAttempt(q.rows[claimed].metadata));
    UnreplacedBefore(q.log, entry, id);
    CountAfterAppend(q.log, entry, id);
    if Unreplaced(q.log, id) {
      NumberedAfterAppend(q.log, entry, id);
    }
  }

  lemma {:induction false} ClaimAllKeepsCounted(q: Queue, ids: seq<Id>, id: Id)
    requires Counted(q, id)
    requires forall i | 0 <= i < |ids| :: ids[i] in q.rows && q.rows[ids[i]].status == Processing
    ensures Counted(ClaimAll(q, ids), id)
    decreases |ids|
  {
    if ids != [] {
      ClaimKeepsCounted(q, ids[0], id);
      ClaimAllKeepsCounted(ClaimRow(q, ids[0]), ids[1..], id);
    }
  }

  lemma StepKeepsCounted(q: Queue, e: Event, id: Id)
    requires Counted(q, id)
    ensures Counted(Step(q, e), id)
  {
    match e
    case ClaimBatch(locked, ids) =>
      if BatchAllowed(q, locked, ids) {
        forall i | 0 <= i < |ids| ensures ids[i] in q.rows && q.rows[ids[i]].status == Processing {
          assert Claimable(q, ids[i]);
        }
        ClaimAllKeepsCounted(q, ids, id);
      }
    case ClaimOne(claimed) =>
      if Claimable(q, claimed) {
        ClaimKeepsCounted(q, claimed, id);
      }
    case Patch(other, metadata) =>
      if Undeleted(q, other) && metadata.Some? {
        PatchKeepsCounted(q, other, metadata.value, id);
      }
    case _ =>
  }

  lemma PatchKeepsCounted(q: Queue, patched: Id, metadata: Metadata, id: Id)
    requires Counted(q, id) && Undeleted(q, patched)
    ensures Counted(Step(q, Patch(patched, Some(metadata))), id)
  {
    var after := Step(q, Patch(patched, Some(metadata)));
    assert after.log == q.log + [Replaced(patched)];
    UnreplacedBefore(q.log, Replaced(patched), id);
    CountAfterAppend(q.log, Replaced(patched), id);
    if Unreplaced(after.log, id) {
      assert patched != id && after.rows[id] == q.rows[id];
      NumberedAfterAppend(q.log, Replaced(patched), id);
    }
  }

  lemma {:induction false} RunKeepsCounted(q: Queue, events: seq<Event>, id: Id)
    requires Counted(q, id)
    ensures Counted(Run(q, events), id)
    decreases |events|
  {
    if events != [] {
      StepKeepsCounted(q, events[0], id);
      RunKeepsCounted(Step(q, events[0]), events[1..], id);
    }
  }

  lemma {:induction false} UnknownHasNoClaims(log: seq<Entry>, id: Id)
    requires forall i | 0 <= i < |log| :: log[i].id != id
    ensures ClaimCount(log, id) == 0
    decreases |log|
  {
    if log != [] {
      UnknownHasNoClaims(log[..|log| - 1], id);
    }
  }

  /** From the insert of a row without a counter on, and over every run that does not replace its metadata,
      the k-th claim of the row is numbered k, and while the row awaits processing it holds the number of
      its claims. */
  lemma ClaimsAreCounted(q: Queue, id: Id, isVideo: bool, metadata: Metadata, events: seq<Event>)
    requires id !in q.rows && (forall i | 0 <= i < |q.log| :: q.log[i].id != id)
    requires "processingAttempts" !in metadata
    requires Unreplaced(Run(Step(q, Insert(id, isVideo, metadata)), events).log, id)
    ensures var end := Run(Step(q, Insert(id, isVideo, metadata)), events);
      id in end.rows && Numbered(end.log, id) && HoldsCount(end.rows[id], ClaimCount(end.log, id))
  {
    UnknownHasNoClaims(q.log, id);
    RunKeepsCounted(Step(q, Insert(id, isVideo, metadata)), events, id);
  }

  // ---- deleted rows --------------------------------------------------------------------------

  lemma {:induction false} ClaimAllSparesOthers(q: Queue, ids: seq<Id>, id: Id)
    requires forall i | 0 <= i < |ids| :: ids[i] in q.rows && ids[i] != id
    ensures id in q.rows ==> ClaimAll(q, ids).rows[id] == q.rows[id]
    ensures Latest(ClaimAll(q, ids).log, id) == Latest(q.log, id)
    decreases |ids|
  {
    if ids != [] {
      LatestAfterAppend(q.log, Claimed(ids[0], q.now, NextAttempt(q.rows[ids[0]].metadata)), id);
      ClaimAllSparesOthers(ClaimRow(q, ids[0]), ids[1..], id);
    }
  }

  lemma BatchSparesDeleted(q: Queue, locked: set<Id>, ids: seq<Id>, id: Id)
    requires id in q.rows && q.rows[id].deleted && BatchAllowed(q, locked, ids)
    ensures ClaimAll(q, ids).rows[id] == q.rows[id] && Latest(ClaimAll(q, ids).log, id) == Latest(q.log, id)
  {
    forall i | 0 <= i < |ids| ensures ids[i] in q.rows && ids[i] != id {
      assert Claimable(q, ids[i]);
    }
    ClaimAllSparesOthers(q, ids, id);
  }

  lemma ClaimSparesOther(q: Queue, claimed: Id, id: Id)
    requires claimed in q.rows && id in q.rows && claimed != id
    ensures ClaimRow(q, claimed).rows[id] == q.rows[id] && Latest(ClaimRow(q, claimed).log, id) == Latest(q.log, id)
  {
    LatestAfterAppend(q.log, Claimed(claimed, q.now, NextAttempt(q.rows[claimed].metadata)), id);
  }

  lemma StepSparesDeleted(q: Queue, e: Event, id: Id)
    requires id in q.rows && q.rows[id].deleted
    ensures id in Step(q, e).rows && Step(q, e).rows[id] == q.rows[id]
    ensures Latest(Step(q, e).log, id) == Latest(q.log, id)
  {
    match e
    case ClaimBatch(locked, ids) =>
      if BatchAllowed(q, locked, ids) {
        BatchSparesDeleted(q, locked, ids, id);
      }
    case ClaimOne(other) =>
      if Claimable(q, other) {
        ClaimSparesOther(q, other, id);
      }
    case Patch(other, metadata) => LatestAfterAppend(q.log, Replaced(other), id);
    case _ =>
  }

  /** Nothing touches a soft-deleted row again: it is never claimed, revived, marked or patched. */
  lemma {:induction false} DeletedStaysDeleted(q: Queue, events: seq<Event>, id: Id)
    requires id in q.rows && q.rows[id].deleted
    ensures id in Run(q, events).rows && Run(q, events).rows[id] == q.rows[id]
    ensures Latest(Run(q, events).log, id) == Latest(q.log, id)
    decreases |events|
  {
    if events != [] {
      StepSparesDeleted(q, events[0], id);
      DeletedStaysDeleted(Step(q, events[0]), events[1..], id);
    }
  }

  // ---- what processing writes -------------------------------------------------------------------

  /** What the media tools found out, as the JSON values that are written. */
  datatype Media = Media(
    duration: Json, width: Option<Json>, height: Option<Json>, codec: Option<Json>, thumbnailUrl: Json, thumbnail: Json)

  const DURATION_KEYS := {"durationSec", "durationSeconds", "duration", "duration_seconds"}
  const URL_KEYS := {"thumbnailUrl", "thumbnail_url"}
  const FINISH_KEYS := {"thumbnail", "processingStartedAt", "processingError", "processingCompletedAt"}

  predicate Holds(m: Metadata, key: string, value: Json) {
    key in m && m[key] == value
  }

  predicate SameAt(a: Metadata, b: Metadata, key: string) {
    (key in a <==> key in b) && (key in a ==> a[key] == b[key])
  }

  /** An optional value that is missing leaves the key as it was. */
  predicate HoldsIfKnown(before: Metadata, after: Metadata, key: string, value: Option<Json>) {
    if value.Some? then Holds(after, key, value.value) else SameAt(before, after, key)
  }

  /** The values of the video are in, and every other key is as before. */
  ghost predicate IsMeasured(before: Metadata, media: Media, after: Metadata) {
    && (forall key | key in DURATION_KEYS :: Holds(after, key, media.duration))
    && HoldsIfKnown(before, after, "width", media.width)
    && HoldsIfKnown(before, after, "height", media.height)
    && HoldsIfKnown(before, after, "codec", media.codec)
    && (forall key | key !in DURATION_KEYS + {"width", "height", "codec"} :: SameAt(before, after, key))
  }

  /** The thumbnail is in, the lease and an old error are out, and every other key is as before. */
  ghost predicate IsFinished(before: Metadata, media: Media, after: Metadata) {
    && (forall key | key in URL_KEYS :: Holds(after, key, media.thumbnailUrl))
    && Holds(after, "thumbnail", media.thumbnail) && Holds(after, "processingCompletedAt", Text("now"))
    && "processingStartedAt" !in after && "processingError" !in after
    && (forall key | key !in URL_KEYS + FINISH_KEYS :: SameAt(before, after, key))
  }

  ghost predicate IsMerged(before: Metadata, media: Media, after: Metadata) {
    exists measured :: IsMeasured(before, media, measured) && IsFinished(measured, media, after)
  }

  /** `merge_media_metadata`, which edits the claimed metadata in place: first the video's values, */
  method InsertMeasures(metadata: Metadata, media: Media) returns (merged: Metadata)
    ensures IsMeasured(metadata, media, merged)
  {
    merged := metadata;
    merged := merged["durationSec" := media.duration];
    merged := merged["durationSeconds" := media.duration];
    merged := merged["duration" := media.duration];
    merged := merged["duration_seconds" := media.duration];
    if media.width.Some? {
      merged := merged["width" := media.width.value];
    }
    if media.height.Some? {
      merged := merged["height" := media.height.value];
    }
    if media.codec.Some? {
      merged := merged["codec" := media.codec.value];
    }
  }

  /** then the thumbnail and the end of the lease. The attempt counter stays. */
  method MergeMediaMetadata(metadata: Metadata, media: Media) returns (merged: Metadata)
    ensures IsMerged(metadata, media, merged)
    ensures !Started(merged) && Attempts(merged) == Attempts(metadata)
  {
    var measured := InsertMeasures(metadata, media);
    merged := measured;
    merged := merged["thumbnailUrl" := media.thumbnailUrl];
    merged := merged["thumbnail_url" := media.thumbnailUrl];
    merged := merged["thumbnail" := media.thumbnail];
    merged := merged - {"processingStartedAt"};
    merged := merged - {"processingError"};
    merged := merged["processingCompletedAt" := Text("now")];
    assert SameAt(metadata, measured, "processingAttempts");
    assert SameAt(measured, merged, "processingAttempts");
  }

  /** What became of a row that was claimed with `claimed`. */
  ghost predicate Settled(row: Row, claimed: Metadata, outcome: Result<Media, string>) {
    match outcome
    case Ok(media) => row.status == Ready && IsMerged(claimed, media, row.metadata)
    case Err(error) => row.status == Failed && row.metadata == FailedMetadata(claimed, error)
  }

  // ---- one tick of the worker ------------------------------------------------------------------

  lemma OlderIsTotal(q: Queue, a: Id, b: Id)
    requires a in q.rows && b in q.rows && a != b
    ensures Older(q, a, b) <==> !Older(q, b, a)
  {
  }

  lemma {:induction false} OldestOf(q: Queue, pool: set<Id>) returns (oldest: Id)
    requires pool != {} && pool <= q.rows.Keys
    ensures oldest in pool && forall id | id in pool && id != oldest :: Older(q, oldest, id)
    decreases |pool|
  {
    assert (forall id :: id !in pool) ==> pool == {};
    oldest :| oldest in pool;
    var rest := pool - {oldest};
    assert forall id | id in pool :: id == oldest || id in rest;
    if rest != {} {
      var next := OldestOf(q, rest);
      OlderIsTotal(q, oldest, next);
      var first := if Older(q, oldest, next) then oldest else next;
      forall id | id in pool && id != first ensures Older(q, first, id) {
        assert id == oldest || id == next || (id in rest && Older(q, next, id));
      }
      oldest := first;
    }
  }

  predicate AllUndeleted(q: Queue, ids: seq<Id>) {
    forall i | 0 <= i < |ids| :: Undeleted(q, ids[i])
  }

  /** Of the rows claimed, the first `k` are settled, and nothing else has changed. */
  ghost predicate Processed(
    claimed: Queue, q: Queue, batch: seq<Id>, k: nat, process: Metadata -> Result<Media, string>)
    requires AllUndeleted(claimed, batch) && k <= |batch|
  {
    && q.now == claimed.now && q.log == claimed.log && q.rows.Keys == claimed.rows.Keys
    && (forall id | id in q.rows && id !in batch[..k] :: q.rows[id] == claimed.rows[id])
    && (forall i | 0 <= i < k :: SettledBy(claimed, q, batch[i], process))
  }

  ghost predicate SettledBy(claimed: Queue, q: Queue, id: Id, process: Metadata -> Result<Media, string>) {
    && id in claimed.rows && id in q.rows
    && Settled(q.rows[id], claimed.rows[id].metadata, process(claimed.rows[id].metadata))
  }

  lemma OneMoreProcessed(
    claimed: Queue, before: Queue, after: Queue, batch: seq<Id>, k: nat, process: Metadata -> Result<Media, string>)
    requires AllUndeleted(claimed, batch) && Distinct(batch) && k < |batch|
    requires Processed(claimed, before, batch, k, process)
    requires SettledBy(claimed, after, batch[k], process)
    requires after == before.(rows := before.rows[batch[k] := after.rows[batch[k]]])
    ensures Processed(claimed, after, batch, k + 1, process)
  {
    assert batch[..k + 1] == batch[..k] + [batch[k]];
    forall i | 0 <= i < k ensures SettledBy(claimed, after, batch[i], process) {
      assert SettledBy(claimed, before, batch[i], process) && batch[i] != batch[k];
    }
  }

  class MediaWorker {
    var queue: Queue

    constructor (queue: Queue)
      ensures this.queue == queue
    {
      this.queue := queue;
    }

    /** The inner query of the batch statement. */
    method SelectPending(locked: set<Id>) returns (ids: seq<Id>)
      ensures BatchChosen(queue, locked, ids)
    {
      var pool := set id | id in queue.rows && Pending(queue, locked, id);
      ids := [];
      while |ids| < BATCH_SIZE && pool != {}
        invariant |ids| <= BATCH_SIZE && pool <= queue.rows.Keys
        invariant forall id | id in queue.rows :: id in pool <==> Pending(queue, locked, id) && id !in ids
        invariant forall i | 0 <= i < |ids| :: Pending(queue, locked, ids[i])
        invariant forall i, j | 0 <= i < j < |ids| :: Older(queue, ids[i], ids[j])
        invariant forall i, id | 0 <= i < |ids| && id in pool :: Older(queue, ids[i], id)
        decreases |pool|
      {
        ghost var first := OldestOf(queue, pool);
        var oldest :| oldest in pool && forall id | id in pool && id != oldest :: Older(queue, oldest, id);
        ids := ids + [oldest];
        pool := pool - {oldest};
      }
    }

    /** The batch statement: it claims the oldest rows that are not locked, or fails and changes nothing. */
    method ClaimPending(locked: set<Id>) returns (r: Result<seq<Id>, ()>)
      modifies this
      ensures r.Ok? ==>
        && BatchAllowed(old(queue), locked, r.value) && queue == ClaimAll(old(queue), r.value)
        && queue.now == old(queue.now)
        && AllUndeleted(queue, r.value)
        && (forall id | id in queue.rows && id !in r.value :: queue.rows[id] == old(queue.rows[id]))
      ensures r.Err? ==> queue == old(queue) && exists id ::
        id in queue.rows && Pending(queue, locked, id) && NextAttempt(queue.rows[id].metadata) > MAX_INT
    {
      var batch := SelectPending(locked);
      if i :| 0 <= i < |batch| && NextAttempt(queue.rows[batch[i]].metadata) > MAX_INT {
        return Err(());
      }
      BatchUndeleted(queue, batch);
      forall id | id in queue.rows && id !in batch ensures ClaimAll(queue, batch).rows[id] == queue.rows[id] {
        ClaimAllSparesOthers(queue, batch, id);
      }
      queue := ClaimAll(queue, batch);
      return Ok(batch);
    }

    /** A row deleted in the meantime is left alone, without an error; any other takes the new metadata,
        whatever it holds by now. */
    method MarkReady(id: Id, metadata: Metadata)
      modifies this
      ensures queue == Step(old(queue), Event.MarkReady(id, metadata))
      ensures old(Undeleted(queue, id)) ==>
        id in queue.rows && queue.rows[id].status == Ready && queue.rows[id].metadata == metadata
    {
      if id in queue.rows && !queue.rows[id].deleted {
        var row := queue.rows[id].(status := Ready, metadata := metadata, updatedAt := queue.now);
        queue := queue.(rows := queue.rows[id := row]);
      }
    }

    /** The error is merged into the metadata that the row holds by now. */
    method MarkFailed(id: Id, error: string)
      modifies this
      ensures queue == Step(old(queue), Event.MarkFailed(id, error))
      ensures old(Undeleted(queue, id)) ==>
        && id in queue.rows && queue.rows[id].status == Failed
        && queue.rows[id].metadata == FailedMetadata(old(queue.rows[id].metadata), error)
    {
      if id in queue.rows && !queue.rows[id].deleted {
        var metadata := queue.rows[id].metadata;
        metadata := metadata["processingError" := Text(error)];
        metadata := metadata["processingFailedAt" := Text("now")];
        var row := queue.rows[id].(status := Failed, updatedAt := queue.now, metadata := metadata);
        queue := queue.(rows := queue.rows[id := row]);
      }
    }

    /** Works on the row as it was claimed and marks it as it is by then: deleted, patched or claimed
        anew by another worker in the meantime. */
    method ProcessAsset(id: Id, claimed: Metadata, process: Metadata -> Result<Media, string>)
      modifies this
      ensures match process(claimed)
        case Ok(media) => exists merged ::
          IsMerged(claimed, media, merged) && queue == Step(old(queue), Event.MarkReady(id, merged))
        case Err(error) => queue == Step(old(queue), Event.MarkFailed(id, error))
    {
      var outcome := process(claimed);
      if outcome.Ok? {
        var merged := MergeMediaMetadata(claimed, outcome.value);
        MarkReady(id, merged);
      } else {
        MarkFailed(id, outcome.error);
      }
    }

    method ProcessBatch(batch: seq<Id>, process: Metadata -> Result<Media, string>)
      requires Distinct(batch) && AllUndeleted(queue, batch)
      modifies this
      ensures AllUndeleted(old(queue), batch) && Processed(old(queue), queue, batch, |batch|, process)
    {
      var claimed := queue;
      for k := 0 to |batch|
        invariant Processed(claimed, queue, batch, k, process)
      {
        ghost var held := queue;
        ProcessAsset(batch[k], claimed.rows[batch[k]].metadata, process);
        ProcessedIsSettled(held, queue, batch[k], process);
        OneMoreProcessed(claimed, held, queue, batch, k, process);
      }
    }

    /** Claims a batch and then works through it one row at a time; a row that cannot be processed is
        marked failed. Left undisturbed, a tick leaves none of its rows waiting. */
    method ProcessPending(locked: set<Id>, process: Metadata -> Result<Media, string>)
      returns (r: Result<seq<Id>, ()>)
      modifies this
      ensures r.Err? ==> queue == old(queue)
      ensures r.Ok? ==>
        && BatchAllowed(old(queue), locked, r.value)
        && var claimed := ClaimAll(old(queue), r.value);
        && AllUndeleted(claimed, r.value) && Processed(claimed, queue, r.value, |r.value|, process)
        && forall id | id in queue.rows && id !in r.value :: queue.rows[id] == old(queue).rows[id]
    {
      r := ClaimPending(locked);
      if r.Ok? {
        ChosenAreDistinct(old(queue), locked, r.value);
        ProcessBatch(r.value, process);
      }
    }
  }

  /** One row processed undisturbed. */
  lemma ProcessedIsSettled(before: Queue, after: Queue, id: Id, process: Metadata -> Result<Media, string>)
    requires Undeleted(before, id)
    requires var claimed := before.rows[id].metadata;
      match process(claimed)
      case Ok(media) => exists merged ::
        IsMerged(claimed, media, merged) && after == Step(before, MarkReady(id, merged))
      case Err(error) => after == Step(before, MarkFailed(id, error))
    ensures var claimed := before.rows[id].metadata;
      && id in after.rows && Settled(after.rows[id], claimed, process(claimed))
      && after == before.(rows := before.rows[id := after.rows[id]])
  {
  }

  lemma {:induction false} BatchUndeleted(q: Queue, ids: seq<Id>)
    requires forall i | 0 <= i < |ids| :: ids[i] in q.rows
    ensures forall id | id in q.rows :: ClaimAll(q, ids).rows[id].deleted == q.rows[id].deleted
    ensures ClaimAll(q, ids).now == q.now
    decreases |ids|
  {
    if ids != [] {
      BatchUndeleted(ClaimRow(q, ids[0]), ids[1..]);
    }
  }
}
