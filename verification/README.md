# EntitleHub: a verified model of its protocols, parsers and stores

EntitleHub is a licensing platform: a Rust backend and a Rust client library. This project models the
parts of both whose correctness is not evident from reading one function, and proves what they promise.

- `Calendar`, `Rfc3339`: the closed-form day number and the hand-written timestamp parser of the script
  verifier. The reference is a calendar that can only step to the next day, and a description of the
  accepted texts by the way they are written.
- `Session`: the mutex-guarded session, its saturating clock arithmetic and its refresh callback, over
  every sequence of calls.
- `Folders`, `FolderRaces`, `Uploads`, `VideoClaims`: three state machines of the asset store. SQL statements
  are atomic steps on tables. `Folders` has the folder handlers one at a time; in the other modules the
  statements of handlers, requests and workers interleave as the code lets them.
- `RateLimit`: the fixed-window limiter, whose two Redis commands interleave, get lost and are abandoned.
- `Works`: visibility and publication of customer works, kept in two tables by handlers of two statements.
- `Jwks`, `Signatures`, `Scripts`, `Updates`, `AccessTokens`: the key cache, an association list that is
  proved to be a map, and verification with and without fetching missing keys.
- `Files`, `Updates`: the verified download through a temporary file, on a file system where any
  operation may fail.
- `Base64`, `Pem`, `Percent`, `Messages`, `MachineId`, `Text`: encodings with their inverses, signed texts
  with what they determine, and the canonical form behind the machine id.

Code that updates state is a class or a method with loops, tied by its `ensures` clauses to a function or
a relation about which the lemmas are proved. Everything that lies outside enters as a parameter: the
clock, drawn ids, the answers of callbacks, readers, Redis and the file system, and the functions for
Ed25519, SHA-256 and JSON. Nothing is assumed of these functions unless a lemma says so in a `requires`.

Some claims that a reader might expect are false of the code. For each of them there is a witness and an
exact condition:

- A live asset can lie in a deleted folder. `FolderRaces.AssetLeftInDeletedFolder` gets there from any sound
  library by a grant whose check passed; direct uploads, moved assets and removals do it as well
  (`FolderRaces.RemovalOvertakesWrite`, `FolderRaces.WriteOvertakesRemoval`). Assets stay housed throughout a run
  exactly when each is put into a folder that is still there and no folder is removed that has got one
  (`FolderRaces.HousedThroughoutIff`).
- Folder handlers that interleave between check and write can make a circle of two moves
  (`FolderRaces.InterleavedMovesMakeACircle`), or leave a folder under a deleted parent by a move, a creation or a
  removal. The folders remain a forest throughout a run exactly when every write comes while what was checked
  for it still holds (`FolderRaces.ForestThroughoutIff`).
- Stored bytes can differ from the recorded checksum: `Uploads.RacingPutOverwrites` from every state, and
  `Uploads.BytesBreakableIff` for exactly the states from which the requests at work can part them. As long as no
  request enters a session while another is at work on it, they never do (`Uploads.SequentialRequestsKeepBytes`).
- A rate-limit key need not expire: `RateLimit.StuckIsReached`. It can exactly when `RateLimit.KeyCanExpireIff`
  says so, gets stuck exactly by the loss of its creator (`RateLimit.StuckAfterRunIff`), and then admits no more
  than the limit still leaves (`RateLimit.AbandonedKeyBlocks`).
- Replacing the metadata of a video that awaits processing frees its lease at once, exactly under the
  condition of `VideoClaims.ReplacementFreesTheRow`; `VideoClaims.ClaimPatchClaim` has two claims at one moment.
- The gallery and the visibility of single works can part when two handlers on one work overlap, exactly under
  the condition of `Works.OverlapAgreesIff`, and over whole runs of `Works.AgreementAfterRunIff`. A deleted work can
  keep a published row (`Works.DeletedWorkMayStayPublished`), exactly when its last second statement is a
  publication (`Works.PublishedIff`, `Works.DeletedWorkStaysPublishedIff`).
- A device message, as the message function builds it from any fields, can stand for several requests, exactly
  when a field of the request holds a newline (`Messages.MessageIsSharedIff`). If the newline is in the method or
  one of the ids, the other request has the same body hash and nonce (`Messages.SignableRequestsCollide`).
- A machine-id payload can stand for another key or another set of parts as well, exactly when there are two or
  more canonical parts, whatever the key, or the last line of a key of several lines could itself be the first
  part (`MachineId.PayloadIsSharedIff`); `MachineId.NewlineInKeyCollides` is one input.
- A refresh that fails can leave an invalid state behind, which only the manager's clearing hides:
  `Session.FailedRefreshLeavesInvalidState`, exactly as `Session.RefreshLeavesValidIff` says. A session that is built
  need not validate: `Session.BuiltSessionMayBeInvalid`, and exactly when it does is `Session.BuiltSessionValidIff`.
- A hash with white space around it passes the validation of packages and updates
  (`Scripts.PaddingPassesValidation`, `Updates.PaddingPassesValidation`), but is accepted afterwards exactly when there
  is none (`Scripts.PaddedHashAcceptedIff`, `Updates.PaddedHashAcceptedIff`).
- The timestamp parser accepts more than section 5.6 of RFC 3339: a sign and three digits for the year and
  a space between date and time; and less: second 60 is refused. `Rfc3339.ParserAcceptsExactlyWrittenTexts`
  describes its language.

## Model

| member | source | states |
|---|---|---|
| Calendar.Date.Next | client-sdk/src/script.rs:353-361 | the day after a valid date is a valid date |
| Calendar.EraIsFloor | client-sdk/src/script.rs:369 | the truncating division with its correction for negative years is the floor of the year by 400 |
| Calendar.ClosedFormIsFloor | client-sdk/src/script.rs:367-376 | the era decomposition amounts to 365 days a year plus the Gregorian leap days, for every year and month |
| Calendar.LeapIsGregorian | client-sdk/src/script.rs:363-365 | leap years by truncating remainders are the Gregorian ones, negative years included |
| Calendar.YearLength | client-sdk/src/script.rs:363-376 | a year counted from March is one day longer exactly when the February that ends it has 29 days |
| Calendar.MonthLength | client-sdk/src/script.rs:353-376 | the month offsets of the formula follow one another by the lengths of the months |
| Calendar.EpochIsDayZero | client-sdk/src/script.rs:367-376 | 1970-01-01 is day 0 |
| Calendar.NextDayIsOneMore | client-sdk/src/script.rs:367-376 | the next calendar day raises the day number by exactly one, for every valid date of every year |
| Calendar.StepsAreDifference | client-sdk/src/script.rs:367-376 | the day numbers of two dates differ by the number of single-day steps between them |
| Calendar.ClosedFormCountsDays | client-sdk/src/script.rs:367-376 | the closed form equals counting days one by one from 1970, in either direction |
| Calendar.DayNumbersOrderDates | client-sdk/src/script.rs:367-376 | day numbers are strictly monotone in the calendar order, and injective |
| Calendar.ClosedFormFits | client-sdk/src/script.rs:367-376 | for every 32-bit year the parts of the formula and its result stay in stated ranges |
| Rfc3339.ParseRfc3339ToUnix | client-sdk/src/script.rs:271-336 | the parser with its moving index computes what its two parts, fixed fields and tail, decide; no index leaves the bytes |
| Rfc3339.SkipDigits | client-sdk/src/script.rs:302-306 | the end of the run of digits that starts at an index |
| Rfc3339.TwoDigits | client-sdk/src/script.rs:342-347 | a fixed two-digit field reads back the number it writes |
| Rfc3339.TwoDigitsBack | client-sdk/src/script.rs:342-347 | a fixed two-digit field that is read is the writing of its number |
| Rfc3339.YearParses | client-sdk/src/script.rs:338-340 | the year field is read from four digits, or from a sign and three digits |
| Rfc3339.YearParsesBack | client-sdk/src/script.rs:338-340 | the year field is read from nothing else |
| Rfc3339.OffsetParses | client-sdk/src/script.rs:312-329 | a written zone mark or offset is read as its seconds |
| Rfc3339.OffsetParsesBack | client-sdk/src/script.rs:312-329 | an offset that is read is a written one |
| Rfc3339.WrittenTextsParse | client-sdk/src/script.rs:271-336 | every written valid timestamp parses to its exact Unix second, days counted on the calendar and the fraction dropped |
| Rfc3339.ParsedTextsAreWritten | client-sdk/src/script.rs:271-336 | every text that parses is the writing of a valid timestamp, whose instant is the result |
| Rfc3339.ParserAcceptsExactlyWrittenTexts | client-sdk/src/script.rs:271-336 | the language of the parser, both directions, with its result |
| Rfc3339.EqualResultsAreEqualInstants | client-sdk/src/script.rs:334-335 | two texts parse equal exactly when they name the same instant, whatever offsets they use |
| Rfc3339.ResultsFit | client-sdk/src/script.rs:334-335 | on arbitrary input a result stays far inside the 64-bit range |
| Session.BuiltSessionValidIff | client-sdk/src/session.rs:229-247 | a built session is valid exactly when its saturated expiries are positive and ordered |
| Session.BuiltSessionMayBeInvalid | client-sdk/src/session.rs:229-247 | equal lifetimes are accepted and never make a valid session |
| Session.BuiltSessionIsAsGiven | client-sdk/src/session.rs:229-247 | a session is built exactly from ids and tokens that are not blank, positive lifetimes and a good token type; each of its fields is the one given, with both lifetimes counted from the clock |
| Session.TokenTypeIsOneWord | client-sdk/src/session.rs:313-321 | the token type is the given text or "Bearer", trimmed, and must be one word |
| Session.SumsStopAtTheEnds | client-sdk/src/session.rs:242-243 | the clock plus a lifetime, or the end of the 64-bit range where the sum is beyond it |
| Session.ValidIffFilledAndOrdered | client-sdk/src/session.rs:261-275 | a session is valid exactly when no text of it is blank and its expiries are positive and in order |
| Session.AcceptedRefresh | client-sdk/src/session.rs:297-310 | an accepted refresh outlives the clock, installs the tokens, token type and features offered, counts both lifetimes from the clock and keeps session and device id |
| Session.RefreshAcceptedIff | client-sdk/src/session.rs:297-310 | a refresh is accepted exactly when tokens, lifetimes and token type are good and the saturated expiries are positive and in order |
| Session.SessionManager.constructor | client-sdk/src/session.rs:116-121 | a manager starts with the session it is given, validated or not |
| Session.SessionManager.CurrentSession | client-sdk/src/session.rs:123-127 | the stored session, unless the mutex is poisoned |
| Session.SessionManager.SetSession | client-sdk/src/session.rs:129-135 | stores exactly the valid sessions, and changes nothing otherwise |
| Session.SessionManager.ClearSession | client-sdk/src/session.rs:137-142 | clears the session unless the mutex is poisoned |
| Session.SessionManager.ApplyRefresh | client-sdk/src/session.rs:297-310 | the field assignments in place amount to the refresh function, also when the last validation fails |
| Session.SessionManager.RefreshIfNeeded | client-sdk/src/session.rs:188-218 | the new manager state and outcome for every callback reply, panics included |
| Session.SessionManager.SessionAfterRefreshIfNeeded | client-sdk/src/session.rs:157-186 | on success the answer is the stored session, its access token good now, its ids unchanged; on failure no session is left |
| Session.SessionManager.AuthorizationHeaderValue | client-sdk/src/session.rs:144-155 | state and answer of every call: the header of the stored session exactly when the session call succeeds and that session is valid, and each error otherwise |
| Session.UsableAfterRefresh | client-sdk/src/session.rs:166-218 | for all clock values, margins and lifetimes: success leaves a usable session of the same identity, failure leaves none |
| Session.CallbackAskedIffDue | client-sdk/src/session.rs:287-295 | the callback is asked exactly when the access token is due within the margin and the refresh token is good; saturation never changes that |
| Session.RefreshEndsBy | client-sdk/src/session.rs:188-218 | how a call ends, by the two expiries and the reply alone: nothing due, expired, panic, the error of the callback, or the refresh |
| Session.CallKeepsTokenInv | client-sdk/src/session.rs:157-218 | one call keeps handed-out tokens distinct and the stored token unused |
| Session.NoTokenHandedTwice | client-sdk/src/session.rs:157-218 | over every sequence of calls no refresh token is handed to the callback twice, given fresh tokens from outside |
| Session.CallKeepsValid | client-sdk/src/session.rs:129-218 | one call keeps a stored session valid |
| Session.StoredSessionStaysValid | client-sdk/src/session.rs:129-218 | from no session or a valid one, the stored session is valid after every run |
| Session.FailedRefreshLeavesInvalidState | client-sdk/src/session.rs:297-310 | a refresh of a valid session can fail and leave a changed, invalid state |
| Session.RefreshLeavesValidIff | client-sdk/src/session.rs:297-310 | a refresh leaves a valid session valid exactly when it is refused before the assignments or its saturated expiries are positive and ordered, and is accepted exactly in the second case |
| Folders.ForestIsAcyclic | backend/src/modules/web_assets.rs:1837-1889 | in a forest no folder is its own descendant |
| Folders.DescendantByParent | backend/src/modules/web_assets.rs:1851-1878 | descendants by one parent link at a time, as the recursive query follows them |
| Folders.MoveKeepsForestIff | backend/src/modules/web_assets.rs:546-570 | writing a parent makes a circle exactly when it is the folder or below it at that moment, and keeps the forest exactly when it is moreover live and in scope |
| Folders.CreateKeepsForestIff | backend/src/modules/web_assets.rs:483-506 | a new folder keeps the forest exactly when its parent is live and in scope at that moment |
| Folders.DeleteKeepsForestIff | backend/src/modules/web_assets.rs:587-603 | a deletion keeps the forest exactly when the folder has no live child at that moment |
| Folders.CreateKeepsForest | backend/src/modules/web_assets.rs:470-513 | creating a folder keeps the forest |
| Folders.UpdateKeepsForest | backend/src/modules/web_assets.rs:515-575 | an update that passes its checks keeps the forest |
| Folders.DeleteKeepsForest | backend/src/modules/web_assets.rs:577-612 | deleting an empty folder keeps the forest |
| Folders.StepKeepsForest | backend/src/modules/web_assets.rs:470-612 | every uninterrupted folder handler keeps the forest, whatever happens to assets |
| Folders.RunKeepsForest | backend/src/modules/web_assets.rs:470-612 | over every run of uninterrupted handlers the live folders are an acyclic forest with live parents of the same tenant, application and customer |
| Folders.MoveAcceptedIffAcyclic | backend/src/modules/web_assets.rs:1837-1889 | a move to a live parent of the same scope is accepted exactly when the resulting parent relation is acyclic |
| Folders.FoundIff | backend/src/modules/web_assets.rs:1646-1675 | a caller finds exactly the undeleted folders of its own tenant and application |
| Folders.ForeignFolderIsNotFound | backend/src/modules/web_assets.rs:515-612 | an update or a deletion of a folder that is absent, deleted or of another tenant or application is answered as not found |
| Folders.RunSparesForeignFolders | backend/src/modules/web_assets.rs:470-612 | over every run a folder whose tenant or application no request carries never changes |
| Folders.CreateAcceptedIff | backend/src/modules/web_assets.rs:470-513 | a folder is created exactly for an active customer under a live parent of the same scope, and which row is written |
| Folders.UpdateAcceptedIff | backend/src/modules/web_assets.rs:515-575 | an update is accepted exactly for a folder of the caller and a live parent of its scope that is not at or below it, and only the parent is written |
| Folders.DeleteAcceptedIff | backend/src/modules/web_assets.rs:577-612 | a deletion is accepted exactly for a folder of the caller without live folders or assets directly in it, and only its mark changes |
| Folders.TablesChangeApart | backend/src/modules/web_assets.rs:470-612 | folder handlers leave the assets alone |
| Folders.AssetLibrary.constructor | backend/src/modules/web_assets.rs:470-513 | the empty library is a forest |
| Folders.AssetLibrary.Descendants | backend/src/modules/web_assets.rs:1853-1878 | the recursive query ends and returns exactly the strict descendants |
| Folders.AssetLibrary.CanBeMoved | backend/src/modules/web_assets.rs:1837-1889 | the check succeeds exactly when the parent is not at or below the folder, with the error for each case |
| Folders.AssetLibrary.CreateFolder | backend/src/modules/web_assets.rs:470-513 | new state and error of folder creation, forest kept |
| Folders.AssetLibrary.UpdateFolder | backend/src/modules/web_assets.rs:515-575 | new state and error of a folder update, forest kept; a row that is absent, deleted or of another tenant or application is not found and nothing changes |
| Folders.AssetLibrary.DeleteFolder | backend/src/modules/web_assets.rs:577-612 | new state and error of folder deletion, forest kept; a row that is absent, deleted or of another tenant or application is not found and nothing changes |
| FolderRaces.WriteKeepsForestIff | backend/src/modules/web_assets.rs:470-612 | which write keeps the forest: exactly one whose folder checks still hold at the moment of writing |
| FolderRaces.WriteKeepsHousedIff | backend/src/modules/web_assets.rs:577-978 | which write keeps every live asset at the root or in a live folder: exactly one into a folder that is still there, or a removal of one that still holds no asset |
| FolderRaces.ForestThroughoutIff | backend/src/modules/web_assets.rs:470-612 | over every interleaved run the folders remain a forest throughout exactly when every write comes while its checks still hold |
| FolderRaces.HousedThroughoutIff | backend/src/modules/web_assets.rs:577-978 | likewise for assets: direct uploads, granted uploads, moved assets and folder removals |
| FolderRaces.ChecksSuffice | backend/src/modules/web_assets.rs:470-978 | a handler whose checks hold at the moment of its write does no harm |
| FolderRaces.PassesIff | backend/src/modules/web_assets.rs:1823-1946 | what each check of each handler asks of the tables |
| FolderRaces.HandlerGoesThrough | backend/src/modules/web_assets.rs:470-978 | a handler takes off once its row is found, its checks in order take it on or end it, and its write ends it, without effect when it is refused or finds no row |
| FolderRaces.OthersGoThrough | backend/src/modules/web_assets.rs:706-1017 | what redeeming a grant, dropping an asset and abandoning a handler write |
| FolderRaces.StepKeepsKnown | backend/src/modules/web_assets.rs:470-978 | one statement keeps folder references within their tenant, application and customer |
| FolderRaces.RunKeepsKnown | backend/src/modules/web_assets.rs:470-978 | over every interleaving no folder or asset refers to a folder of another tenant, application or customer |
| FolderRaces.StepSparesAbsent | backend/src/modules/web_assets.rs:470-978 | one statement of a handler changes no folder or asset of a tenant or application other than the one it acts for |
| FolderRaces.RunSparesAbsent | backend/src/modules/web_assets.rs:470-978 | over every interleaving rows whose tenant and application no request carries never change |
| FolderRaces.ReadyIsReached | backend/src/modules/web_assets.rs:470-978 | a handler whose checks pass gets as far as its write |
| FolderRaces.RemovalOvertakesWrite | backend/src/modules/web_assets.rs:470-978 | a new folder, a move, a direct upload or a moved asset into an empty folder can be overtaken by its removal, from every sound library, and then breaks the forest or leaves an asset in a deleted folder |
| FolderRaces.WriteOvertakesRemoval | backend/src/modules/web_assets.rs:470-850 | and a removal can be overtaken by a new folder or asset |
| FolderRaces.AssetLeftInDeletedFolder | backend/src/modules/web_assets.rs:614-780 | from every sound library a grant whose check passed, the removal of its folder and its redemption leave a live asset in a deleted folder |
| FolderRaces.InterleavedMovesMakeACircle | backend/src/modules/web_assets.rs:515-575 | any two live folders of one scope, neither below the other, can be moved into one another by two handlers that check before either writes |
| Uploads.StepKeepsInv | backend/src/modules/web_assets.rs:614-780 | every statement of every request keeps the protocol invariant |
| Uploads.StepKeepsGrants | backend/src/modules/web_assets.rs:1762-1798 | grants never change and a consumption is never undone |
| Uploads.RunKeepsInv | backend/src/modules/web_assets.rs:614-780 | so does every run |
| Uploads.OneAssetPerSession | backend/src/modules/web_assets.rs:706-780 | however many requests race, one session yields at most one asset |
| Uploads.AssetCarriesItsGrant | backend/src/modules/web_assets.rs:748-772 | an asset has the tenant, application, customer, folder, name, type, role and metadata of its grant, and its session was consumed strictly before expiry |
| Uploads.AssetFitsItsGrant | backend/src/modules/web_assets.rs:712-772 | over every run an asset has the size of the bytes it was made of, within 1 byte and 512 MiB and as declared if declared, the granted media type if there is one, a key of its tenant, customer and extension, and awaits processing exactly when it is a video |
| Uploads.AdmittedIff | backend/src/modules/web_assets.rs:714-737 | a request is admitted exactly with a body within the limits and of the declared size, for a session that exists, is neither consumed nor over, and has its token and a fitting media type |
| Uploads.AdmittedRequestFits | backend/src/modules/web_assets.rs:731-744 | an admitted request carries the granted media type, else that of the header, else that of plain bytes, and the storage key made of it |
| Uploads.ExtensionIsListed | backend/src/modules/web_assets.rs:2298-2316 | the table of extensions |
| Uploads.TypeFitsIff | backend/src/modules/web_assets.rs:2208-2226 | an asset type accepts a media type by its first six characters |
| Uploads.GrantLastsFifteenMinutes | backend/src/modules/web_assets.rs:614-704 | a new session is unconsumed and as granted, and over every run is consumed within 15 minutes or never |
| Uploads.GrantUsableIff | backend/src/modules/web_assets.rs:2256-2265 | left alone, a new session can be used exactly for less than 15 minutes |
| Uploads.ConsumesIff | backend/src/modules/web_assets.rs:1762-1798 | the consuming update succeeds exactly for the right token before expiry on an unconsumed session |
| Uploads.BytesMatchIff | backend/src/modules/web_assets.rs:745-772 | exactly which single steps part stored bytes from recorded checksums |
| Uploads.RacingPutOverwrites | backend/src/modules/web_assets.rs:739-748 | from every state some run of the protocol ends with other bytes than recorded |
| Uploads.StepKeepsAlone | backend/src/modules/web_assets.rs:706-780 | one request at a time finds its session unconsumed and its bytes in place |
| Uploads.SequentialRequestsKeepBytes | backend/src/modules/web_assets.rs:706-780 | as long as requests on a session come one after another, bytes and checksums agree over every run |
| Uploads.BytesBreakableIff | backend/src/modules/web_assets.rs:739-772 | from every state with matching bytes, the requests at work can part them exactly when one that has won or can still win has lost its bytes or has a rival for its key that has yet to put other bytes |
| Uploads.RacingRequestsAreBreakable | backend/src/modules/web_assets.rs:720-748 | any two requests admitted with different bytes for one key lead there |
| Uploads.UndisturbedRun | backend/src/modules/web_assets.rs:706-780 | what the four statements of one request amount to |
| Uploads.UploadTables.UploadCustomerAsset | backend/src/modules/web_assets.rs:706-780 | one undisturbed request refines the four protocol steps; it is accepted exactly for a body of 1 byte to 512 MiB and of the declared size, on an unconsumed, unexpired session with its token and a media type that fits, the granted type first; and then its asset, bytes and consumption are recorded |
| VideoClaims.ClaimKeepsInv | backend/src/modules/web_assets.rs:1240-1278 | a claim of one row keeps leases and spacing |
| VideoClaims.ClaimAllKeepsInv | backend/src/modules/web_assets.rs:1194-1238 | so does a batch of claims |
| VideoClaims.StepKeepsInv | backend/src/modules/web_assets.rs:947-1367 | so does every step of workers, uploads, patches and deletions |
| VideoClaims.RunKeepsInv | backend/src/modules/web_assets.rs:947-1367 | so does every run |
| VideoClaims.SuccessiveClaims | backend/src/modules/web_assets.rs:1194-1278 | two successive claims of one video without a metadata replacement in between are more than ten minutes apart and count up by exactly one |
| VideoClaims.LeaseLastsTenMinutes | backend/src/modules/web_assets.rs:1213-1222 | left alone, a claimed row can be claimed again exactly when more than ten minutes have passed |
| VideoClaims.EligibleIff | backend/src/modules/web_assets.rs:1213-1222 | a row can be claimed exactly if it is an undeleted video that awaits processing, without a recorded start or unchanged for more than ten minutes |
| VideoClaims.BatchTakesTheOldest | backend/src/modules/web_assets.rs:1212-1225 | a batch has at most five rows, each eligible and not locked, and every row it leaves out or takes later is younger |
| VideoClaims.EmptyBatchIff | backend/src/modules/web_assets.rs:1212-1225 | a batch is empty exactly when every eligible row is locked |
| VideoClaims.AttemptsMustFit | backend/src/modules/web_assets.rs:1204-1210 | a claim whose attempt number does not fit 32 bits fails with its whole statement and changes nothing |
| VideoClaims.ClaimWrites | backend/src/modules/web_assets.rs:1199-1211 | a claim writes the time, a start and the next attempt; all other keys and columns stay |
| VideoClaims.InsertWrites | backend/src/modules/web_assets.rs:1442-1497 | a new row is as given, and awaits processing exactly if it is a video |
| VideoClaims.PatchAndDeleteWrite | backend/src/modules/web_assets.rs:947-1002 | what a patch and a deletion write to an undeleted row; a deleted one is left alone |
| VideoClaims.ClaimCountsOn | backend/src/modules/web_assets.rs:1204-1210 | the attempt written is one more than the natural number that the metadata hold as a number or in decimal digits, and 1 if they hold none |
| VideoClaims.CountIsDecimal | backend/src/modules/web_assets.rs:1206-1207 | a run of digits is zeros followed by the decimal form of the number it counts |
| VideoClaims.ClaimsAreCounted | backend/src/modules/web_assets.rs:1194-1278 | over every run from the insert of a row without a counter that does not replace its metadata, the k-th claim is numbered k and the row holds the number of its claims while it awaits processing |
| VideoClaims.ReplacementFreesTheRow | backend/src/modules/web_assets.rs:947-959 | after a replacement the row can be claimed at once exactly when it awaits processing and the new metadata has no lease |
| VideoClaims.ClaimPatchClaim | backend/src/modules/web_assets.rs:947-1278 | claim, replacement and second claim can come at one moment, the count starting afresh |
| VideoClaims.DeletedStaysDeleted | backend/src/modules/web_assets.rs:980-1002 | over every run a soft-deleted asset is never claimed, revived, marked or changed |
| VideoClaims.InsertMeasures | backend/src/modules/web_assets.rs:1381-1393 | the video values are written and nothing else |
| VideoClaims.MergeMediaMetadata | backend/src/modules/web_assets.rs:1369-1409 | the merged metadata: media values in, lease and old error out, attempts and all other keys kept |
| VideoClaims.MediaWorker.constructor | backend/src/modules/web_assets.rs:48-56 | a worker on a given queue |
| VideoClaims.MediaWorker.SelectPending | backend/src/modules/web_assets.rs:1212-1225 | the inner query finds the five oldest eligible rows that are not locked, in order |
| VideoClaims.MediaWorker.MarkReady | backend/src/modules/web_assets.rs:1317-1339 | the metadata of an undeleted row is replaced, whatever it holds by then; a deleted row is left alone |
| VideoClaims.MediaWorker.MarkFailed | backend/src/modules/web_assets.rs:1341-1367 | the error is merged into the metadata that an undeleted row holds by then; a deleted row is left alone |
| VideoClaims.MediaWorker.ClaimPending | backend/src/modules/web_assets.rs:1194-1238 | the batch statement claims the oldest eligible rows that are not locked, or fails on an attempt counter at its end and changes nothing |
| VideoClaims.MediaWorker.ProcessAsset | backend/src/modules/web_assets.rs:1280-1315 | works on the row as claimed and marks it as it is by then, also when it was deleted, patched or claimed anew |
| VideoClaims.MediaWorker.ProcessBatch | backend/src/modules/web_assets.rs:60-70 | undisturbed, every row of the batch ends ready with merged metadata or failed with its error, and no other row changes |
| VideoClaims.MediaWorker.ProcessPending | backend/src/modules/web_assets.rs:58-73 | a tick claims the oldest rows and, undisturbed, settles them and touches no other, or changes nothing when the claim fails |
| RateLimit.Increment | backend/src/rate_limit.rs:32-35 | INCR creates the key with 1 or adds one, and leaves the expiry as it is |
| RateLimit.StepKeepsOwner | backend/src/rate_limit.rs:32-44 | at most one caller owes the expiry of a lifetime, and the key stays while it does |
| RateLimit.StepKeepsLifeBound | backend/src/rate_limit.rs:15-50 | every step keeps admissions within the count of their lifetime |
| RateLimit.RunKeepsInv | backend/src/rate_limit.rs:15-50 | the invariant holds over every interleaving, crash and lost reply |
| RateLimit.CloseAdmissionsAreNeighbours | backend/src/rate_limit.rs:36-44 | admissions at most a window apart belong to the same or neighbouring lifetimes |
| RateLimit.SlidingWindowBound | backend/src/rate_limit.rs:15-50 | one lifetime admits at most max requests, and any interval of the length of the window at most twice max |
| RateLimit.BoundIsReached | backend/src/rate_limit.rs:15-50 | the factor two is reached for every limit and window |
| RateLimit.BurstIsAdmitted | backend/src/rate_limit.rs:32-49 | at the start of a lifetime as many calls as the limit are admitted |
| RateLimit.KeyCanExpireIff | backend/src/rate_limit.rs:32-44 | a key can still expire exactly unless it exists without expiry and no caller owes one |
| RateLimit.StuckAfterStepIff | backend/src/rate_limit.rs:32-44 | which step makes a key stuck: exactly the loss of its creator between the two commands |
| RateLimit.StuckAfterRunIff | backend/src/rate_limit.rs:32-44 | over every run a key is stuck exactly if it was or a creator was lost |
| RateLimit.StuckIsReached | backend/src/rate_limit.rs:32-44 | both ways to lose the creator are open from the start |
| RateLimit.FirstCall | backend/src/rate_limit.rs:32-49 | an undisturbed first call is admitted and starts the window |
| RateLimit.AbandonedKeyBlocks | backend/src/rate_limit.rs:36-47 | a stuck key counts every call for good, admits no more than the limit still leaves, and nothing once its count has reached the limit |
| RateLimit.Limiter.constructor | backend/src/rate_limit.rs:8-14 | a key that does not exist yet |
| RateLimit.Limiter.CheckFixedWindow | backend/src/rate_limit.rs:8-50 | result and commands of one call for every limit and every loss of connection or reply; admitted exactly when logged |
| Works.CreateKeepsInv | backend/src/modules/web_works.rs:679-746 | creating a work keeps the agreement of the tables and one live work per asset |
| Works.HandlerKeepsInv | backend/src/modules/web_works.rs:323-633 | an uninterrupted publish, unpublish or delete keeps the agreement |
| Works.RunKeepsInv | backend/src/modules/web_works.rs:323-746 | over every run of handlers a work is public exactly when published, and deleted works are neither |
| Works.GalleryIsWhatOthersSee | backend/src/modules/web_works.rs:821-915 | where the tables agree, the gallery is exactly what customers see of the works of others |
| Works.GalleryAfterRun | backend/src/modules/web_works.rs:821-915 | so it is after every run of handlers |
| Works.ReadersSee | backend/src/modules/web_works.rs:821-915 | what the gallery, the single view and the owner see, field by field |
| Works.CreateWrites | backend/src/modules/web_works.rs:679-746 | a work is created unless an undeleted one of its scope shows the asset; the new row is its owner's, active and private |
| Works.FirstWrites | backend/src/modules/web_works.rs:336-610 | a first statement changes the marks of the requester's own undeleted work and nothing else |
| Works.SecondWrites | backend/src/modules/web_works.rs:357-633 | a second statement changes the publication of its work in its scope and nothing else |
| Works.RunSparesForeignWorks | backend/src/modules/web_works.rs:323-746 | over every run a work and its publication stay as they are unless its owner asks within its scope |
| Works.TickWrites | backend/src/modules/web_works.rs:323-746 | a request takes off exactly if it finds the work its own |
| Works.FirstKeeps | backend/src/modules/web_works.rs:527-545 | the first statement keeps the interleaved invariant |
| Works.SecondKeeps | backend/src/modules/web_works.rs:546-572 | the second statement restores the agreement of its work |
| Works.InterleavedRunAgrees | backend/src/modules/web_works.rs:323-633 | with requests interleaved at every statement, the tables agree on every live work that is not half-way, provided requests on one work do not overlap between their two statements |
| Works.GalleryAfterInterleavedRun | backend/src/modules/web_works.rs:821-915 | and the gallery is again what others see |
| Works.OverlapAgreesIff | backend/src/modules/web_works.rs:527-626 | two overlapping requests leave the tables in agreement exactly if one deletes, both want the same, or the second statements run in the order of the first |
| Works.PublishedIff | backend/src/modules/web_works.rs:335-633 | over every interleaved run, deleted works included, a work ends published exactly when its last second statement is a publication |
| Works.PublicIff | backend/src/modules/web_works.rs:335-633 | and public exactly when its last first statement with effect is one |
| Works.AgreementAfterRunIff | backend/src/modules/web_works.rs:323-633 | so after every interleaved run the tables agree on a work exactly when both or neither of these are publications |
| Works.DeletedWorkStaysPublishedIff | backend/src/modules/web_works.rs:334-572 | of two overlapping requests of which one deletes, the row stays published exactly when the second statement that runs last is a publication; no reader shows the work |
| Works.DeletedWorkMayStayPublished | backend/src/modules/web_works.rs:524-572 | a deletion between check and statements of a publication leaves a published row that no reader shows |
| Works.WorkTables.CreateWorkForGeneratedAsset | backend/src/modules/web_works.rs:679-746 | a work is created exactly when no live work shows the asset, and only its owner sees it |
| Works.WorkTables.PublishWork | backend/src/modules/web_works.rs:515-579 | new state of a publication; afterwards the work is in the gallery |
| Works.WorkTables.UnpublishWork | backend/src/modules/web_works.rs:581-633 | new state of a withdrawal; afterwards only the owner sees the work |
| Works.WorkTables.DeleteWork | backend/src/modules/web_works.rs:323-380 | new state of a deletion; afterwards nobody sees the work |
| Jwks.FindIsLookup | client-sdk/src/jwks.rs:36-38 | searching the list is looking up the map it stands for |
| Jwks.UpsertIsMapUpdate | client-sdk/src/jwks.rs:40-51 | an upsert is a map update |
| Jwks.UpsertAllIsMapMerge | client-sdk/src/jwks.rs:40-52 | a batch of upserts is a map merge in which the last key of a kid counts |
| Jwks.FindAfterUpsertAll | client-sdk/src/jwks.rs:36-52 | a lookup after a batch finds the last update, else what was there |
| Jwks.UpsertKeepsPlaces | client-sdk/src/jwks.rs:40-51 | an upsert changes one entry or adds one at the end |
| Jwks.UpsertAllKeepsDistinct | client-sdk/src/jwks.rs:26-52 | no kid is held twice |
| Jwks.PublishedKeyIsRead | client-sdk/src/jwks.rs:115-137 | which published keys are accepted, with which error the others are refused, and that the text kept for an accepted one is read back as the published bytes |
| Jwks.PublicationRoundTrips | client-sdk/src/jwks.rs:115-153 | every 32-byte key survives publication and fetching |
| Jwks.DocumentKeysAreTheEntries | client-sdk/src/jwks.rs:97-101 | every entry of an accepted document becomes its own EdDSA key in its own place, read back as the bytes of that very entry |
| Jwks.DocumentAcceptedIff | client-sdk/src/jwks.rs:97-101 | a document is accepted exactly when each of its entries is |
| Jwks.NamedKidIsAnswered | client-sdk/src/jwks.rs:64-78 | a missing kid that the fetched document names is answered with the bytes published by the last entry of that kid |
| Jwks.UnnamedKidIsRefused | client-sdk/src/jwks.rs:64-78 | one that it does not name counts as an invalid signature |
| Jwks.RequireIsLookup | client-sdk/src/jwks.rs:103-113 | a lookup answers from the map alone; a missing kid and another algorithm are the two errors |
| Jwks.FetchFailsIff | client-sdk/src/jwks.rs:67-76 | a fetch fails with the error of its function, or as an invalid document exactly when its text is none or an entry is not accepted |
| Jwks.JwksSource.Fetch | client-sdk/src/jwks.rs:67-74 | one more call of the fetch function, with its answer |
| Jwks.JwksCache.FromKeys | client-sdk/src/jwks.rs:26-30 | a cache built from a list holds each kid once |
| Jwks.JwksCache.Upsert | client-sdk/src/jwks.rs:41-50 | overwriting the first match in place, or pushing, is the upsert |
| Jwks.JwksCache.UpsertAll | client-sdk/src/jwks.rs:40-52 | the loop is the batch of upserts |
| Jwks.JwksCache.RequireWithRefresh | client-sdk/src/jwks.rs:64-78 | answer and keys afterwards; the fetch runs once if the kid is absent and not at all otherwise |
| Signatures.UpdateAppends | client-sdk/src/update.rs:227-242 | hashing chunks in turn is hashing them joined |
| Signatures.PublishedSignatureIsVerified | client-sdk/src/signing.rs:139-186 | a signature under a published key is verified, in either base64 form |
| Signatures.VerifiedIffSigned | client-sdk/src/signing.rs:139-151 | verification succeeds exactly for signatures under a readable key; an unreadable key and a wrong signature are different errors |
| Signatures.HashesAreHex | client-sdk/src/update.rs:219-222 | a hash passes exactly with 64 hexadecimal digits of either case once trimmed |
| Scripts.AcceptedScriptIsSigned | client-sdk/src/script.rs:96-118 | an accepted script is fresh, and the hash of the very content returned was signed with its version under a key of the list |
| Scripts.PublishedScriptIsAccepted | client-sdk/src/script.rs:96-118 | every published, fresh and signed package is accepted and gives back its content |
| Scripts.OutcomeByChecks | client-sdk/src/script.rs:96-118 | the outcome for every package: which check decides and with which error |
| Scripts.SignedTextFixesScript | client-sdk/src/script.rs:171-182 | accepted packages with equal signed texts have the same version and contents of the same hash |
| Scripts.ValidIff | client-sdk/src/script.rs:184-205 | which packages are valid, field by field |
| Scripts.FaultIsNamed | client-sdk/src/script.rs:184-205 | a validation error names a field that is at fault |
| Scripts.AsI64Wraps | client-sdk/src/script.rs:99-102 | the cast of the clock to a signed word keeps it up to whole turns of 64 bits |
| Scripts.FreshIff | client-sdk/src/script.rs:98-106 | a package is fresh exactly without expiry, or with a clock before it |
| Scripts.PaddedHashIsRefused | client-sdk/src/script.rs:200-203 | whatever else a package holds, a hash of other than 64 characters is refused |
| Scripts.PaddingPassesValidation | client-sdk/src/script.rs:184-205 | white space around the hash passes validation |
| Scripts.PaddedHashAcceptedIff | client-sdk/src/script.rs:111-115 | a valid, fresh, signed package that names the hash of its content up to white space and case is accepted exactly when there is no white space |
| Scripts.VerifySignatureRefreshing | client-sdk/src/script.rs:157-169 | signature check with refresh equals the plain one against the final keys unless a needed fetch fails; at most one fetch |
| Scripts.VerifyAndDecodeRefreshing | client-sdk/src/script.rs:120-149 | verification with refresh equals plain verification against the final keys unless a needed fetch fails; fetch only for a valid, fresh package with an unknown kid |
| AccessTokens.PartsAreOfTheToken | client-sdk/src/access_token.rs:117-124 | a token has the parts read from it exactly when it is those three non-empty, dot-free parts joined by dots |
| AccessTokens.AcceptedTokenIsSigned | client-sdk/src/access_token.rs:46-115 | an accepted token is signed under the key its header names, and its claims are those signed, for the expected parties and not over |
| AccessTokens.SignedTokenIsAccepted | client-sdk/src/access_token.rs:46-115 | every signed token for the expected parties that is not over is accepted with its claims |
| AccessTokens.RefusedTokens | client-sdk/src/access_token.rs:46-115 | a token accepted at another time is accepted until its expiry and refused as expired from then on; the other errors are those of the lookup and the invalid token |
| AccessTokens.VerifyRefreshing | client-sdk/src/access_token.rs:65-87 | verification with refresh equals plain verification against the final keys unless a needed fetch fails; at most one fetch |
| Updates.AcceptedUpdateIsSigned | client-sdk/src/update.rs:50-62 | the release that was signed carries the hash of the very bytes verified |
| Updates.SignedUpdateIsAccepted | client-sdk/src/update.rs:50-62 | every valid update signed under a key of the list is accepted with the file of its hash |
| Updates.OutcomeByChecks | client-sdk/src/update.rs:50-62 | the outcome for every update and file: which check decides and with which error |
| Updates.SignedTextFixesUpdate | client-sdk/src/update.rs:147-175 | accepted updates with equal signed texts agree on version code, file hash, size and time, and on the names as far as newlines allow |
| Updates.ValidIff | client-sdk/src/update.rs:192-225 | which updates are valid, field by field |
| Updates.FaultIsNamed | client-sdk/src/update.rs:192-225 | a validation error names a field that is at fault |
| Updates.NoDowngradeIff | client-sdk/src/update.rs:177-190 | an update is no downgrade exactly when valid and at least the current version, which must not be negative |
| Updates.SignedTextIs | client-sdk/src/update.rs:147-175 | the text that is signed, line by line |
| Updates.PaddingPassesValidation | client-sdk/src/update.rs:192-225 | white space around the hash passes validation |
| Updates.PaddedHashAcceptedIff | client-sdk/src/update.rs:55-61 | a valid, signed update that names the hash of the file up to white space and case is accepted exactly when there is no white space |
| Updates.Sha256HexFile | client-sdk/src/update.rs:227-242 | the chunked hash of a file is the hash of its contents, however much each read gives |
| Updates.VerifyDownloaded | client-sdk/src/update.rs:50-62 | success means that the file verifies; without file errors the result is exactly that of its contents |
| Updates.VerifySignatureRefreshing | client-sdk/src/update.rs:133-145 | signature check with refresh equals the plain one against the final keys unless a needed fetch fails |
| Updates.VerifyDownloadedRefreshing | client-sdk/src/update.rs:64-80 | the same for the file; the fetch only after the hash matched and for an unknown kid |
| Updates.TempPathIs | client-sdk/src/update.rs:261-269 | the name of the temporary file, and the error for a target without a name |
| Updates.TempPathIsOther | client-sdk/src/update.rs:261-269 | the temporary file is another file of the same directory, one for each target |
| Updates.StreamToFile | client-sdk/src/update.rs:244-259 | on success the file holds exactly the stream; no other file changes in any case |
| Updates.StreamVerifyRename | client-sdk/src/update.rs:101-107 | the steps that may fail before the target is touched |
| Updates.DownloadFromReader | client-sdk/src/update.rs:92-114 | for every chunking and every fault: success leaves the verified stream at the target and no temporary file, failure leaves every other file as before |
| Updates.DownloadForCurrentVersion | client-sdk/src/update.rs:116-125 | never an older version; otherwise as the plain download |
| Files.FileSystem.Create | client-sdk/src/update.rs:245 | a file is created empty or the operation fails |
| Files.FileSystem.Append | client-sdk/src/update.rs:254 | a write appends its chunk, or fails and leaves some beginning of it |
| Files.FileSystem.Read | client-sdk/src/update.rs:234 | a read gives some of what is left, and nothing only at the end |
| Files.FileSystem.Rename | client-sdk/src/update.rs:104 | a rename is atomic |
| Files.FileSystem.Remove | client-sdk/src/update.rs:110 | a removal takes away a file that is there, or fails and changes nothing |
| Base64.DecodesWhatItEncodes | client-sdk/src/signing.rs:182-200 | decoding undoes encoding for every byte string, in both variants (sections 4 and 5 of RFC 4648) |
| Base64.EncodesWhatItDecodes | client-sdk/src/signing.rs:182-186 | decoding accepts nothing but encodings |
| Base64.VariantsAgree | client-sdk/src/signing.rs:182-186 | a text that both variants accept means the same in both |
| Base64.EitherVariantIsRead | client-sdk/src/signing.rs:182-186 | the fallback reader recovers what either variant wrote |
| Base64.AlphabetIs | client-sdk/src/signing.rs:182-200 | the two alphabets (tables 1 and 2 of RFC 4648) |
| Base64.EncodedLength | client-sdk/src/signing.rs:182-200 | the length of an encoding, with and without padding |
| Base64.TestVectors | client-sdk/src/signing.rs:182-200 | test vectors of section 10 of RFC 4648 |
| Pem.WritePem | client-sdk/src/jwks.rs:139-153 | the loop over 64-column chunks writes the wrapped PEM |
| Pem.WrappedPemIsRead | client-sdk/src/jwks.rs:139-153 | every byte string is read back from its wrapped PEM |
| Pem.OneLinePemIsRead | client-sdk/src/signing.rs:194-200 | and from its one-line PEM |
| Pem.BareKeyIsRead | client-sdk/src/signing.rs:157-180 | a bare 32-byte key is read from either base64 form |
| Pem.WrappedPemLayout | client-sdk/src/jwks.rs:139-153 | the wrapped PEM is the base64 form of prefix and key in lines of 64 characters between the two lines of armour |
| Pem.OneLinePemLayout | client-sdk/src/signing.rs:188-200 | the one-line PEM, with no newline at its end |
| Pem.ReadsKeyIff | client-sdk/src/signing.rs:157-180 | which texts are keys: armoured prefix and key, or 32 bytes in base64 |
| Messages.NonceIff | client-sdk/src/signing.rs:126-137 | a nonce has 16 to 128 characters of the URL-safe alphabet |
| Messages.DecimalReadsBack | client-sdk/src/signing.rs:103-124 | a decimal number is read back from its text |
| Messages.MessageIsJoin | client-sdk/src/signing.rs:103-124 | the eight lines of a device message in their order |
| Messages.MethodIsUpperCase | client-sdk/src/signing.rs:103-124 | the message of a request with method "post" starts with the line "POST" |
| Messages.ReleaseLines | client-sdk/src/update.rs:166-175 | the six lines of a release payload in their order |
| Messages.ScriptParts | client-sdk/src/script.rs:180-182 | a script payload is the hash and the version code with a colon between them |
| Messages.DeviceMessagesEqualIff | client-sdk/src/signing.rs:103-124 | a request without newlines shares its message exactly with the requests equal to it, the method up to case, whatever those hold |
| Messages.SignedRequestsEqualIff | client-sdk/src/signing.rs:72-137 | with the hash that the signer makes and the nonce it checks, only the caller's own fields of one of two requests need to be free of newlines |
| Messages.NewlinesCollide | client-sdk/src/signing.rs:103-124 | for every request with a newline in a field there is a different one with the same message |
| Messages.MessageIsSharedIff | client-sdk/src/signing.rs:103-124 | a message built from any fields stands for more than one request, up to the case of the method, exactly when a field holds a newline |
| Messages.SignableRequestsCollide | client-sdk/src/signing.rs:72-124 | with a newline in the method or an id, the other request has the same body hash, nonce and timestamp, so that the signer makes both |
| Messages.NewlineFreeIffSeven | client-sdk/src/signing.rs:103-124 | the fields are free of newlines exactly when the message has seven |
| Messages.ReleasePayloadsEqualIff | client-sdk/src/update.rs:166-175 | with newline-free hashes, equal payloads mean equal version code, hash, size and time, and equal names once application ids are newline-free |
| Messages.ScriptPayloadsEqualIff | client-sdk/src/script.rs:180-182 | equal script payloads mean equal hash and version code |
| MachineId.NormalizedAlikeIff | client-sdk/src/device.rs:226-237 | two parts are normalised alike exactly when they differ in nothing but case and spacing |
| MachineId.NormalFormIsFixed | client-sdk/src/device.rs:226-237 | normalisation is idempotent and leaves no newline |
| MachineId.SortSorts | client-sdk/src/device.rs:206 | sorting orders the list and keeps its elements |
| MachineId.DedupAscends | client-sdk/src/device.rs:207 | removing neighbours from a sorted list leaves each element once |
| MachineId.CanonicalListsTheSet | client-sdk/src/device.rs:202-207 | the canonical list is ascending and holds exactly the normalised parts |
| MachineId.CanonicalEqualIff | client-sdk/src/device.rs:202-207 | two part lists have the same canonical list exactly when their sets of normalised parts are equal |
| MachineId.PayloadsEqualIffLines | client-sdk/src/device.rs:197-212 | two payloads are equal exactly when the lines of their keys followed by their canonical parts are |
| MachineId.PayloadsEqualIff | client-sdk/src/device.rs:197-212 | for keys without a newline: payloads are equal exactly when the trimmed keys and the sets of normalised parts are |
| MachineId.CanonicalIsFixed | client-sdk/src/device.rs:202-207 | an ascending list of normal forms is its own canonical list |
| MachineId.PartPassesForLine | client-sdk/src/device.rs:197-212 | for every key, the first of two or more canonical parts can be taken for its last line |
| MachineId.LinePassesForPart | client-sdk/src/device.rs:197-212 | the last line of a key can be taken for a part, when it could be one |
| MachineId.PayloadIsSharedIff | client-sdk/src/device.rs:197-212 | the payload of any key and parts stands for another key or set of parts exactly when there are two or more canonical parts or the last line of the key could be the first part |
| MachineId.PayloadOfOneLineKeyIsSharedIff | client-sdk/src/device.rs:197-212 | for a key without a newline: exactly when there are two or more canonical parts |
| MachineId.NewlineInKeyCollides | client-sdk/src/device.rs:212 | one input: a key with a newline passes for a key and a part |
| MachineId.MachineIdFromFingerprintParts | client-sdk/src/device.rs:196-215 | the id is the encoded hash of the payload, with its two errors |
| MachineId.PartsAreLowerCase | client-sdk/src/device.rs:196-237 | the payload of the key "app" and the part "ABC" is the lines "app" and "abc" |
| MachineId.IdsEqualIff | client-sdk/src/device.rs:214 | ids are equal exactly when the hashes are |
| Percent.KeyRoundTrip | backend/src/storage.rs:385-416 | decoding undoes the encoding of keys and components for every byte string |
| Percent.KeysEqualIff | backend/src/storage.rs:385-399 | key encoding is injective |
| Percent.EncodingsAreEncoded | backend/src/storage.rs:385-416 | only unreserved characters, slashes in keys, and percent with two upper-case digits come out (sections 2.1 and 2.3 of RFC 3986) |
| Percent.EncodedByteIs | backend/src/storage.rs:410-416 | an unreserved character stands for itself, every other byte becomes its two digits |
| Percent.UnreservedIs | backend/src/storage.rs:411 | the unreserved characters |
| Percent.SlashesStay | backend/src/storage.rs:385-399 | a key is encoded part by part, with its slashes where they were |
| Percent.SplittingFindsTheParts | backend/src/storage.rs:385-408 | splitting an encoded key at slashes gives the encodings of its parts |
| Percent.Utf8IsInjective | backend/src/storage.rs:385-389 | different texts have different bytes |
| Percent.Utf8CharIs | backend/src/storage.rs:385-389 | the shortest form of a character and the bits it carries (section 3 of RFC 3629) |
| Percent.PathsEqualIff | backend/src/storage.rs:193-204 | within one store two keys share a canonical path exactly when their trimmed texts are equal |
| Percent.PathStartsWithStore | backend/src/storage.rs:193-204 | the path of the store without slashes at its end, the bucket, the key |
| Text.TrimsToNothing | client-sdk/src/session.rs:323-329 | a text is empty after trimming exactly when it is blank |
| Text.CasesOfLetters | client-sdk/src/device.rs:226-237 | each letter of the alphabet has one small and one capital form |
| Text.OthersHaveNoCase | client-sdk/src/device.rs:226-237 | other characters have no case |
| Text.WhitespaceIs | client-sdk/src/session.rs:316 | the 25 characters that count as white space |

## Left out

- HTTP extraction, authentication, audit rows, JSON reading and writing, error codes, paging and filters: plumbing around the modelled steps. Checks of names and metadata enter the handlers as flags.
- Ed25519, SHA-256, random ids and tokens: given functions and drawn values; nothing is proved about their strength.
- Case mapping is that of ASCII, for methods, hashes and fingerprint parts; white space is the full Unicode table.
- Real SQL: each statement is one atomic step on finite maps. Constraint failures, such as two siblings of one name, enter as the flag `written`.
- Folder listings, folder names and metadata, and the asset listing queries.
- Uploads.AssetCarriesItsGrant: does not follow the asset after its insert; later changes of an asset belong to other handlers.
- Direct uploads, which have storage keys of their own, are modelled only for the folder they enter; mirrored assets enter none.
- FolderRaces.ForestThroughoutIff: the check of a move is answered by the relation of the tables. Once a circle exists, the recursive query of a folder in it would not end at all.
- VideoClaims.SuccessiveClaims: times are whole seconds.
- The final status of a video is not stable: ready and failed can overwrite each other after a row was claimed again, and nothing is claimed about it. Media tools and object storage are one given function; cutting the error text to 500 characters is left out.
- RateLimit.SlidingWindowBound: an admission is counted at the last Redis command of its request; loss of the Redis data, eviction and a count beyond 32 bits are left out.
- Session: the optional device key id, JSON forms and the other validators of the file.
- Works: favourites, downloads, tags, titles, the asset links of a work, and the error of a publication with bad tags, which comes before any statement.
- Updates.DownloadFromReader: one writer at a time, no symbolic links; the buffer between write and file is not modelled, so a written chunk is in the file at once. The declared file size is signed but never compared with the download, and nothing is claimed about it.
- Percent.PathsEqualIff: the key check that precedes it, which refuses paths with `..`, and the assembly of URLs and request signatures.
- The console, configuration, metrics, routing, permissions, wallet, license and generation modules.
