# Verification of the service book

A Dafny model of the logic that the service book rests on, and proofs of what it promises: the
append-only service history and its transactions, the ownership of bikes, rate limiting, the login
throttle, session tokens, CNPJ validation and object storage of the Go backend, and the expression
evaluator, the CSS scanners, the sidecar store and the crop geometry of the two hand-written scripts
in `design/`. Check it all with `dafny verify dfyconfig.toml`. Nothing was executed: every statement
below is a contract that Dafny's verifier establishes, for all inputs and all runs save where it is
said to exhibit one.

## How the model is laid out

- `ServiceHistory.dfy` holds the committed tables and the effect of each committed transaction, and
  `Services.dfy` what corrections conserve; `Transactions.dfy` has the same transactions statement by
  statement, interleaving under row locks, with the uploads around them; `Interleavings.dfy` and
  `Uploads.dfy` the theorems about whole runs; `Repository.dfy` the write paths in source order on
  tables that nobody else uses; `Requests.dfy` what one request comes to in a run; `Odometer.dfy` the
  figures derived from the history, for serial histories and for runs; `Hydration.dfy` the batched
  queries.
  `Interleavings.EveryInterleavingIsSerial` ties them together: what is proved of serial histories
  holds of every interleaving.
- `Ownership.dfy`, `RateLimiter.dfy`, `LoginThrottle.dfy` and `SlotStore.dfy` each have the class with
  the source's fields and methods, a function that says what one step does, and theorems about runs;
  `Windows.dfy` counts the instants in a window of time for the limiter and the throttle.
- `Token.dfy` prints and parses in layers: decimal, colon-joined fields, base64url, dot-joined parts;
  `TokenLaws.dfy` has the theorems, and `TokenFormat.dfy` says what each layer writes and reads. The
  MAC is any function of the payload.
- `Expressions.dfy` evaluates text as the script does, on every string; `ExpressionTrees.dfy` is the
  grammar of expressions with its printer and its meaning. JavaScript's own operators are parameters.
- `PseudoCss.dfy` and `Declarations.dfy` have the scanners' loops, each proved equal to a function on
  the rest of the text; `PseudoCssLaws.dfy` has the theorems about these functions, and
  `PseudoCssForms.dfy` says what becomes of each form a text may begin with.
- `CropGeometry.dfy` works with real numbers, `ObjectStorage.dfy` and `Cnpj.dfy` with strings.

The theorems about runs use the same functions as the operations. So that these functions cannot go
wrong together, there are laws that say what the operations do without any of them, with the source's
own constants written out: those named `...Mean` or `...Means`, `Allowance` in the windows of the
limiter, `LockedBy` in the laws of the throttle, `Expected` in hydration, the `...GoesThrough` of
requests.

Where the code does not do what one would expect, there is a lemma with an input or a run that shows
it, and one that says exactly when it does:

- two racing Creates can undercut the odometer (`RacingCreatesUndercutOdometer`; exactly when:
  `WhenCreateUndercuts`, `WhenCreateReadsOdometer`);
- a public address with a path makes `Delete` miss its object (`BucketInAddress`; exactly when:
  `ObjectNameInvertsPut`, `OrphanIsRemoved`), and one whose path begins with the bucket loses the
  account of it (`MisdirectedDeletionLosesObject`; exactly when: `AccountsNeedTheAddress`);
- a CNPJ that ends in 00 can be mistyped unnoticed (`EndingIn00SlipsThrough`; exactly when:
  `MistypedNumberAccepted`);
- a string literal with `==` in it is read as a comparison (`QuotedOperatorIsMisread`; exactly when:
  `QuotedIsText`);
- the batched queries may order a record's rows otherwise than queries of its own would
  (`TiedRowsMayTurn`; exactly when: `WhenOrderIsFixed`);
- a failed first read of the sidecar loses what it held (`FailedReadLosesImage`; exactly when:
  `WhenStoredEntryIsKept`, `FailedReadForgetsSidecar`);
- a cleared image comes back (`FramedAgainItIsBack`; exactly when: `ClearedImageComesBack`);
- an image that has just loaded may leave a strip of the frame bare (`LoadLeavesStripBare`; exactly
  when: `FirstLoad`, `WhenInFrame`).

## Model

| member | source | states |
|---|---|---|
| `Interleavings.EveryInterleavingIsSerial` | internal/servicerecord/repository.go:233-363 | In every interleaving of the statements of Create, Revise and AddAttachment, with aborts and uploads, the committed tables are those of the committed transactions run one after the other in commit order; what each open transaction has read under its row lock still stands |
| `Transactions.CommitIsAtomic` | internal/servicerecord/repository.go:233-313 | A commit changes the tables exactly as the whole transaction would, had it run alone at the moment of its commit, and it could have |
| `Transactions.CommitKeepsIsolation` | internal/servicerecord/repository.go:365-389 | The commit of one transaction leaves true what every other one has read and locked |
| `Transactions.QuietStepKeepsIsolation` | internal/servicerecord/repository.go:233-363 | A statement that does not commit changes no committed row and breaks nobody's reads |
| `Interleavings.HistoryIsAppendOnly` | internal/servicerecord/repository.go:233-389 | Over all interleavings: chains run forward and never meet, no record holds more than 20 files, and a committed record changes at most once, by becoming superseded |
| `Interleavings.CorrectionCommitsWithSameFiles` | internal/servicerecord/repository.go:292-306 | When a correction commits, its files equal the original's as a multiset, and the original, live until then, points at it, whatever uploads to the original ran beside it |
| `Interleavings.HandlerKeepsBikes` | internal/servicerecord/handler.go:84-110 | With the plate and workshop that the handler passes on, every committed correction stays on the bike and with the workshop of the record it corrects |
| `Interleavings.ServicesAreConserved` | internal/servicerecord/repository.go:208-313 | In every interleaving of requests through the handlers a bike has exactly as many current records as Creates were committed for it, and a chain keeps one bike and one workshop |
| `Uploads.ObjectsAreAccounted` | internal/server/upload.go:106-134 | With any sound public address that does not misdirect deletions, in every interleaving each stored object is linked, in the hands of exactly one request, or an orphan whose deletion failed; nothing linked is missing from the bucket |
| `Uploads.DatabaseAndStoreAgree` | internal/server/upload.go:106-188 | Under such an address every attachment URL is that of a stored object, and with no upload in flight the bucket holds just what is linked and the orphans that Delete failed on |
| `Uploads.OrphanIsRemoved` | internal/server/upload.go:182-188 | In every interleaving an orphan is in the bucket and linked nowhere, and the answered deletion of its URL removes it, and nothing else, if and only if the public address has no path |
| `Uploads.RemovalHits` | internal/storage/storage.go:117-146 | What Delete does with a URL made by Put: with no path in the address it removes that object and nothing else; with a path that does not misdirect it always fails |
| `Uploads.MisdirectedDeletionLosesObject` | internal/storage/storage.go:135-146 | For every public address whose path begins with the bucket, a run after which an object is in the bucket that nothing links, nobody has in hand and no failed deletion accounts for |
| `Uploads.AccountsNeedTheAddress` | internal/storage/storage.go:135-146 | The accounts hold over all runs if and only if the path of the public address does not begin with the bucket |
| `Interleavings.RacingCreatesUndercutOdometer` | internal/servicerecord/repository.go:391-403 | A run in which two unconfirmed Creates both pass the mileage check and the second to commit reads less than the odometer: the check takes no lock |
| `Interleavings.StillPasses` | internal/servicerecord/repository.go:391-403 | A mileage that passed the check at one moment of a run passes it at a later one if and only if no higher record of that bike was committed in between and is still current |
| `Interleavings.LastCheck` | internal/servicerecord/repository.go:255-260 | An unconfirmed Create that is about to commit has passed the mileage check on the tables of an earlier moment of the run |
| `Interleavings.WhenCreateUndercuts` | internal/servicerecord/repository.go:255-260 | In every interleaving an unconfirmed Create commits below a current record of its bike exactly when a higher one was committed since its own check and is still current |
| `Odometer.WhenCreateReadsOdometer` | internal/servicerecord/repository.go:255-260 | In every interleaving an unconfirmed Create reads at least the odometer it commits to, and its mileage becomes the odometer, if and only if no higher record of the bike was committed since its check and is still current |
| `Interleavings.LogOnlyGrows` | internal/servicerecord/repository.go:308-313 | A step adds at most one transaction to the committed history and takes none away |
| `Interleavings.LocksStayHeld` | internal/servicerecord/repository.go:315-389 | In every interleaving each locked row is that of a transaction in flight that is past its lock on it, and a transaction holds no other |
| `Interleavings.EveryWaitCanEnd` | internal/servicerecord/repository.go:315-389 | In every interleaving the row a transaction waits for is held by another that waits for nothing, has at most six steps to take, comes nearer to its end with each, and frees the row when it ends |
| `Transactions.OnlyLocksMakeWait` | internal/servicerecord/repository.go:315-389 | A step that is not possible but would be with all rows free is that of a transaction that waits for a row |
| `Requests.CreateGoesThrough` | internal/servicerecord/repository.go:233-313 | From any state of a run, the statements of a Create reach their commit if and only if the plate is known and either the client confirms or no current record of the bike reads more; the commit leaves just its record |
| `Requests.ReviseGoesThrough` | internal/servicerecord/repository.go:233-313 | With the row free, the statements of a Revise reach their commit if and only if the record is the workshop's and current and the plate is known, whatever the mileage; the commit leaves just its record |
| `Requests.AttachGoesThrough` | internal/servicerecord/repository.go:315-363 | With the row free, an upload reaches its commit if and only if the record is the workshop's and has fewer than 20 files; the commit adds just its file |
| `Requests.CommitLeavesRecord` | internal/servicerecord/repository.go:233-313 | In every interleaving a write leaves, when it commits, just its record, on the bike that its plate belongs to at that moment |
| `Requests.CommitLeavesFile` | internal/servicerecord/repository.go:315-363 | In every interleaving an upload adds, when it commits, just its file to its record |
| `Requests.RefusedIsStopped` | internal/servicerecord/repository.go:233-260 | The write alone on the tables refuses exactly what cannot reach its commit in a run |
| `ServiceHistory.ApplyKeepsChained` | internal/servicerecord/repository.go:233-313 | Each committed transaction keeps superseded_by pointing forward, and to no record twice |
| `ServiceHistory.ReplayChained` | internal/servicerecord/repository.go:233-313 | Every history of committed transactions has chains that run forward and never meet |
| `ServiceHistory.EveryChainEndsInItsHead` | internal/servicerecord/repository.go:365-389 | Every record leads to a live one in finitely many corrections, at most as many as there are later records |
| `ServiceHistory.OnlyHeadIsLive` | internal/servicerecord/repository.go:365-389 | Along a chain only the head is live, and later records were committed later |
| `ServiceHistory.AtMostOnePredecessor` | internal/servicerecord/repository.go:25-33 | The scalar subquery for the record that a correction replaces never finds two rows, and no chain returns to where it started |
| `ServiceHistory.HistoryOnlyGrows` | db/migrations/0001_init.sql:60-71 | Nothing committed is ever changed or removed, except that superseded_by is set once |
| `ServiceHistory.ReplayCapped` | internal/servicerecord/repository.go:315-363 | No history gives a record more than 20 attachments, copied ones included |
| `ServiceHistory.CorrectionCarriesFiles` | internal/servicerecord/repository.go:292-306 | Committing a correction gives it the original's files and changes nobody else's |
| `ServiceHistory.RecordIsLeft` | internal/servicerecord/repository.go:262-313 | What a committed transaction leaves, row by row: a new live record with the bike, workshop and entry asked for, the original superseded by it and its files copied; every other row of every table as it was |
| `Services.ReplayKeepsBike` | internal/servicerecord/handler.go:84-110 | Where corrections come through the handler, each supersedes a record of the same bike and workshop |
| `Services.WholeChainKeepsBike` | internal/servicerecord/handler.go:84-110 | So a whole chain has one bike and one workshop |
| `Services.LiveAfter` | internal/servicerecord/repository.go:233-313 | A Create adds its record to the current ones of its bike, a Revise exchanges one for another, an attachment changes none |
| `Services.LiveRecordsCountCreates` | internal/servicerecord/repository.go:208-216 | A bike's current records number exactly its committed Creates |
| `Services.NewcomersHaveNoRecords` | internal/servicerecord/repository.go:246-253 | A bike not yet registered has no record and no Create |
| `Repositories.Repository.Write` | internal/servicerecord/repository.go:233-313 | The statements of write in order, alone on the tables: the exact condition and order of each refusal, nothing written on refusal, and otherwise exactly the Create or Revise of the history |
| `Repositories.Repository.HighestMileage` | internal/servicerecord/repository.go:391-403 | The highest mileage of a bike's current records, none if it has no record |
| `Repositories.Repository.AddAttachment` | internal/servicerecord/repository.go:315-363 | Refused exactly when the record is not the workshop's or already has 20 files; otherwise one file more on that record alone |
| `Odometer.CreateRaisesOdometer` | internal/servicerecord/repository.go:255-260 | A Create never lowers any bike's odometer, and its own mileage becomes the odometer exactly when the unconfirmed check would let it pass |
| `Odometer.WhenRevisionLowersOdometer` | internal/owner/repository.go:80-94 | A Revise lowers the odometer if and only if it reads less and the record it corrects was the only one to read that much |
| `Odometer.OnlyRevisionsLowerOdometer` | internal/owner/repository.go:80-94 | No other committed transaction lowers a bike's odometer, nor a Revise of another bike's record |
| `Odometer.FallenOdometerWasRevised` | internal/owner/repository.go:80-94 | Over any stretch of any history, where the odometer has fallen one of the bike's records was corrected meanwhile |
| `Odometer.FallenOdometerWasRevisedInRun` | internal/owner/repository.go:80-94 | The same between any two moments of any interleaving: the corrections committed in between include one of a record of that bike |
| `Odometer.OilChangeWithinOdometer` | internal/owner/repository.go:80-94 | The last oil change never reads more than the odometer |
| `Odometer.TopKm` | internal/owner/repository.go:82-94 | The maximum over a set of records: an upper bound that is attained, 0 for none |
| `Odometer.FiguresMean` | internal/owner/repository.go:80-94 | The odometer is the highest mileage among the records of the bike that nothing supersedes, 0 for none; the last oil change the highest among those of them that changed the oil, absent for none |
| `Hydration.Hydrate` | internal/servicerecord/repository.go:54-123 | Whatever order the database gives rows with the same key, anew for each query: three batched queries with the index by id put behind what each record had, for any list of distinct ids, its rows of the three answers, and these are what queries of its own may bring |
| `Hydration.EachRow` | internal/servicerecord/repository.go:125-133 | Running the append closure over the rows appends to each record its own rows in order and to no other |
| `Hydration.BatchIsEachAlone` | internal/servicerecord/repository.go:54-123 | The rows of one id in any ordered answer to the batch are an ordered answer to a query for that id alone |
| `Hydration.WhenOrderIsFixed` | internal/servicerecord/repository.go:69-117 | The batch gives one record its rows in the order of a query of its own, whatever the database does, if and only if no two of its rows with the same key differ |
| `Hydration.TiedRowsMayTurn` | internal/servicerecord/repository.go:86-90 | Two parts of one record with the same name, which the batch may bring in another order |
| `Hydration.AnswersStayWithin` | internal/servicerecord/repository.go:54-123 | Every row that comes back belongs to an id that was asked for, so the index finds it |
| `Hydration.OrderBySorts` | internal/servicerecord/repository.go:54-123 | For any rows there is an answer ordered by key |
| `Ownership.Repository.BeginClaim` | internal/owner/repository.go:125-154 | The checks of Claim in their order, under the row lock; a refusal changes nothing |
| `Ownership.Repository.EndClaim` | internal/owner/repository.go:156-177 | Commit sets the owner and frees the row, a rollback only frees it |
| `Ownership.Repository.ReleaseBike` | internal/owner/repository.go:65-78 | Clears the owner exactly when the caller holds the bike |
| `Ownership.LocksStaySound` | internal/owner/repository.go:125-163 | In every interleaving a claim that is past its checks may still succeed: the bike is free or the claimant's |
| `Ownership.HeldUntilReleased` | internal/owner/repository.go:65-163 | In every interleaving, whoever holds a bike holds it until they release it |
| `Ownership.HoldersHavePapers` | internal/owner/handler.go:142-175 | With the suffixes that the handler lets through, nobody comes to hold a bike, or to be past the checks for it, without having begun a claim with the last six characters of its chassis number, six capital letters or digits |
| `Ownership.BikeChangesHands` | internal/owner/repository.go:65-163 | Between two holders of a bike lie a release by the first and a claim with the last six characters of the chassis number by the second |
| `Ownership.ClaimGivesBike` | internal/owner/repository.go:125-177 | A claim goes on exactly if the bike is registered, the suffix ends its chassis number and it has no other owner; then, whatever others do before its commit, the commit is possible and gives the claimant the bike and changes no other |
| `Ownership.ReleaseFreesBike` | internal/owner/repository.go:65-78 | A release by the holder leaves that bike without an owner and all else as it was; by anyone else it changes nothing |
| `RateLimiting.RateLimiter.constructor` | internal/server/ratelimit.go:31-38 | A new limiter knows no caller |
| `RateLimiting.RateLimiter.Allow` | internal/server/ratelimit.go:40-63 | The shared map and the answer after one call, sweep included, are those of the specification |
| `RateLimiting.RateLimiter.EvictStale` | internal/server/ratelimit.go:65-74 | The sweep removes exactly the buckets idle for longer than the truncated threshold plus a minute |
| `RateLimiting.EvictionUnobservable` | internal/server/ratelimit.go:41-74 | Over every run the shared, swept map answers each request as a bucket of that caller alone would that is never evicted |
| `RateLimiting.IdleLongEnough` | internal/server/ratelimit.go:68-71 | The threshold, truncated to whole nanoseconds and stretched by a minute, is at least the time an empty bucket takes to fill |
| `RateLimiting.StaleIsFull` | internal/server/ratelimit.go:65-74 | A bucket that the sweep removes would have been full |
| `RateLimiting.RefillInTwoSteps` | internal/server/ratelimit.go:55-56 | The lazy refill in two steps is the refill in one |
| `RateLimiting.LevelIsTightestWindow` | internal/server/ratelimit.go:55-62 | A bucket holds x tokens if and only if every window from one of its admissions until now has room for x more, at the rate times the window's seconds |
| `RateLimiting.AdmitsExactly` | internal/server/ratelimit.go:41-63 | A request is admitted if and only if admitting it keeps every window ending now within burst + rate * seconds for that caller; a second is 1,000,000,000 of the clock's units, and the law does not mention the refill |
| `RateLimiting.NoWindowOverflows` | internal/server/ratelimit.go:41-63 | No window, wherever it lies, admits more than burst + rate * seconds requests of one caller |
| `RateLimiting.SweepForgetsIdle` | internal/server/ratelimit.go:45-74 | Exactly who has a bucket after a call: the caller, and who had one, except that the call of a caller without one drops those whose last call is longer ago than the threshold |
| `Windows.CountInIsCount` | internal/server/ratelimit.go:41-63 | What the window laws count is the number of places in the run whose instant lies in the window |
| `RateLimiting.RefusalLeavesNoTrace` | internal/server/ratelimit.go:58-60 | Leaving out a refused call changes no later answer to anyone |
| `RateLimiting.SameAdmissions` | internal/server/ratelimit.go:41-74 | The admissions of the shared limiter are those of the separate buckets |
| `LoginThrottling.LoginThrottle.Locked` | internal/auth/throttle.go:41-48 | Locked exactly while the account's lock has not run out |
| `LoginThrottling.LoginThrottle.Fail` | internal/auth/throttle.go:50-69 | The accounts after a failure: counted on, or started afresh after a sweep; at the limit the lock is set and the count reset |
| `LoginThrottling.LoginThrottle.Succeed` | internal/auth/throttle.go:71-76 | A success forgets the account and no other |
| `LoginThrottling.LoginThrottle.EvictStale` | internal/auth/throttle.go:78-86 | The sweep removes exactly the entries past both the lockout and their lock |
| `LoginThrottling.LockAlwaysFollowsFailure` | internal/auth/throttle.go:50-69 | A lock never outlives the last failure by more than the lockout |
| `LoginThrottling.EvictionUnobservable` | internal/auth/throttle.go:41-86 | Over every run the swept map says "locked" exactly when the account's own record, never swept, does |
| `LoginThrottling.FailAgrees` | internal/auth/throttle.go:50-69 | A failure of anyone keeps the swept map in agreement with each account's own record |
| `LoginThrottling.LockLastsItsFullDuration` | internal/auth/throttle.go:41-69 | Without a success a lock holds to its end, whatever else happens |
| `LoginThrottling.Login` | internal/workshop/handler.go:75-113 | Asks, checks and reports in the handler's order; an empty CNPJ or password touches nothing, a failed lookup counts as no failure |
| `LoginThrottling.StreakHolds` | internal/auth/throttle.go:50-69 | How an account's record reads off its failures since the last success: those that count are the last ones, the rest at least a lockout older |
| `LoginThrottling.LockedExactly` | internal/auth/throttle.go:41-69 | Over every run an account is locked if and only if, among its failures since its last success, one that completes `limit` more of a chain without a gap longer than the lockout lies less than a lockout back; read off the calls alone |
| `LoginThrottling.FewFailuresNeverLock` | internal/auth/throttle.go:41-69 | With fewer than `limit` failures since its last success an account is never locked |
| `LoginThrottling.LoginIsAnswered` | internal/workshop/handler.go:84-102 | Logins one at a time: the answer is "too many attempts" exactly when the account's failures say locked; else it is what the check says, and only a wrong password adds a failure, only a right one clears them |
| `LoginThrottling.SweepForgetsOld` | internal/auth/throttle.go:50-86 | Exactly which accounts are remembered after a failure: its own, and those before, except that a failure which starts afresh drops every account without a failure within a lockout |
| `LoginThrottling.GuessesAreBounded` | internal/workshop/handler.go:84-102 | With logins one at a time, any stretch without a success holds at most k * limit failed password checks of an account in any window of k lockouts |
| `TokenLaws.IssueThenVerify` | internal/auth/token.go:63-122 | Issue accepts exactly the valid subjects, and Verify gives exactly that subject back if and only if the time is not past the expiry rounded down to a second |
| `TokenLaws.GoodAtOnce` | internal/auth/token.go:63-122 | The exact condition for a token to be good when issued; a ttl of a second always suffices |
| `TokenLaws.PayloadsAreDistinct` | internal/auth/token.go:76 | No two valid subjects and expiries share a payload |
| `TokenLaws.SwappedPayloadRefused` | internal/auth/token.go:99-102 | A payload under another payload's signature is refused unless the signatures coincide |
| `TokenLaws.AcceptedIsSigned` | internal/auth/token.go:81-122 | Whatever Verify accepts is, before its first dot, the code of a payload and, behind it, the code of the MAC of that payload; the payload names the valid subject returned and an expiry that has not passed |
| `TokenLaws.ReadBackPayload` | internal/auth/token.go:103-121 | The three colon-joined fields are split into the same three again |
| `TokenLaws.UnpackedByVerify` | internal/auth/token.go:82-102 | Verify takes apart any payload and signature that were put together, and compares the signature |
| `TokenFormat.TokenMeans` | internal/auth/token.go:76-78 | A token is, character by character, the code of kind, colon, id, colon and expiry in whole seconds, a dot, and the code of the MAC of that |
| `TokenFormat.RefusalMeans` | internal/auth/token.go:65-74 | Which subjects Issue refuses, and for which reason when there are several |
| `Decimal.ParseFormat` | internal/auth/token.go:76-115 | Every int64 is read back as printed, with no separator in it |
| `TokenFormat.FormatMeans` | internal/auth/token.go:76 | The text of an integer is its digits without leading zeros, a minus before them if it is negative |
| `TokenFormat.ParseMeans` | internal/auth/token.go:113 | A sign or none and digits are read as their value if it is in the range of int64, and not otherwise |
| `TokenFormat.OnlyNumbersAreParsed` | internal/auth/token.go:113 | Nothing but a sign or none and digits is read |
| `Base64Url.DecodeEncode` | internal/auth/token.go:77-96 | Unpadded base64url, section 5 of RFC 4648: every byte string is decoded from its code, which has no dot in it |
| `TokenFormat.EncodeMeans` | internal/auth/token.go:77-78 | Three bytes are coded as the four symbols of Table 2 of RFC 4648 that their 24 bits stand for, and what follows is coded on its own |
| `TokenFormat.OneByteEncoded` | internal/auth/token.go:77-78 | A last byte is coded as two symbols, without padding |
| `TokenFormat.TwoBytesEncoded` | internal/auth/token.go:77-78 | Two last bytes are coded as three symbols, without padding |
| `TokenFormat.ForeignIsRejected` | internal/auth/token.go:89-96 | A code with a character outside that alphabet, padding included and line breaks excepted, is rejected |
| `Cnpj.NormalizeCNPJ` | internal/workshop/validate.go:17-27 | Keeps the digits in order and nothing else |
| `Cnpj.NormalizedStays` | internal/workshop/validate.go:17-27 | A string of digits is normal already |
| `Cnpj.ComputeCheckDigit` | internal/workshop/validate.go:54-63 | The check digit of the weighted sum, with the remainder of Go |
| `Cnpj.ValidateCNPJ` | internal/workshop/validate.go:29-52 | Accepts exactly 14 characters, not all the same, both of whose check digits hold |
| `Cnpj.AcceptedMeans` | internal/workshop/validate.go:29-63 | Which strings are accepted, with both weighted sums written out: the twelve and the thirteen products, and what completes a sum to a multiple of 11, 0 where that would be 10 or 11 or the sum is negative |
| `Cnpj.WrongDigitPasses` | internal/workshop/validate.go:54-63 | Exactly when both check digits hold again after a change of one digit: the number ends in 00, the digit is not one of these, and both new sums leave 0 or 1 |
| `Cnpj.MistypedNumberAccepted` | internal/workshop/validate.go:29-63 | Exactly when an accepted number is still accepted with one digit replaced: it ends in 00, the digit is not one of these, and both new sums leave 0 or 1 |
| `Cnpj.SingleDigitErrorCaught` | internal/workshop/validate.go:29-63 | Replacing any single digit of an accepted CNPJ that does not end in 00 is rejected |
| `Cnpj.EndingIn00SlipsThrough` | internal/workshop/validate.go:58-62 | An accepted number ending in 00 with one digit replaced that is accepted too |
| `Cnpj.CheckDigitsAreUnique` | internal/workshop/validate.go:43-50 | Each 12-digit base has exactly one pair of check digits |
| `ObjectStorage.Store.Put` | internal/storage/storage.go:97-124 | Stored exactly for an allowed type, a size from 1 byte to 8 MiB and an answering bucket; the URL and the one new object |
| `ObjectStorage.Store.Delete` | internal/storage/storage.go:117-124 | Removes the object that the URL names, if it names one |
| `ObjectStorage.Store.Serve` | internal/server/upload.go:106-134 | A request whose file could not be linked leaves the bucket as it was if and only if the public address has no path and the deletion succeeds |
| `ObjectStorage.ObjectNameInvertsPut` | internal/storage/storage.go:114-146 | ObjectName gives back the object of a URL made by Put if and only if the public address has no path |
| `ObjectStorage.WhatObjectNameFinds` | internal/storage/storage.go:114-146 | What ObjectName makes of a URL made by Put, for every sound address: the object if there is no path, another name if the path begins with the bucket, an error with any other path |
| `ObjectStorage.BucketInAddress` | internal/storage/storage.go:135-146 | With the bucket as the address's path, ObjectName names another object |
| `ObjectStorage.UrlsAreDistinct` | internal/storage/storage.go:114 | Different objects have different URLs |
| `ObjectStorage.OtherBucketIsNotFound` | internal/storage/storage.go:135-146 | A URL into another bucket of the same address names no object |
| `ObjectStorage.NoUrlIsNotFound` | internal/storage/storage.go:135-139 | A text with a control character in it names no object |
| `ObjectStorage.BadHostIsNotFound` | internal/storage/storage.go:135-139 | A URL whose host is none, or whose port is no number, names no object |
| `ObjectStorage.HostlessUrls` | internal/storage/storage.go:135-146 | In a URL without a host all behind the colon is the path, and names an object exactly if it begins with the bucket |
| `ObjectStorage.TrimMeans` | internal/storage/storage.go:79 | The slashes at the end of the public address are taken off, all of them and nothing else |
| `Expressions.ParensWrapWhole` | design/support.js:237-247 | True exactly when no parenthesis before the last character closes the first |
| `Expressions.FindTopLevelEquality` | design/support.js:248-262 | The first equality operator outside parentheses and brackets that has something before it, or none |
| `Expressions.FirstEquality` | design/support.js:248-262 | It is one, and there is none before it; none found means there is none |
| `Expressions.ResolvePath` | design/support.js:263-294 | The loops over a path compute the recursive value of the path |
| `Expressions.ResolveSegment` | design/support.js:270-291 | One segment: where it ends and its value, or where the path breaks off |
| `Expressions.FindClosing` | design/support.js:276-287 | The bracket that closes the one at hand |
| `ExpressionTrees.EvaluatingTheText` | design/support.js:205-294 | For every tree of the grammar, evaluating its text, with any white space around and inside, is evaluating the tree; negation binds tighter, equality groups to the right; string literals hold any text whose parentheses and brackets are balanced and whose operators lie within them |
| `ExpressionTrees.ComparisonMeans` | design/support.js:211-225 | A printed comparison gives, operator by operator, sameness, its negation, loose equality or its negation of what its two sides give, in that order; said without the tree's meaning |
| `ExpressionTrees.NegationMeans` | design/support.js:226 | `!` gives the negation of the truth of what follows |
| `ExpressionTrees.ParenMeans` | design/support.js:208-210 | Parentheses around an expression change nothing |
| `ExpressionTrees.NameMeans` | design/support.js:263-266 | A name is looked up in the values, and is undefined when there are none |
| `ExpressionTrees.PropertyMeans` | design/support.js:269-273 | A property, named or numbered, is that of what the path before it gives; undefined of undefined and null |
| `ExpressionTrees.IndexMeans` | design/support.js:274-288 | An index is evaluated on its own, and its property read of what the path before it gives; undefined of undefined and null |
| `ExpressionTrees.WordsMean` | design/support.js:227-230 | The four words give their four values |
| `ExpressionTrees.NumberMeans` | design/support.js:231 | Digits, with a minus or not, a point and further digits or not, are a number |
| `ExpressionTrees.StringMeans` | design/support.js:232-234 | A text in quotes of either kind gives its characters |
| `ExpressionTrees.SpaceMeansNothing` | design/support.js:206-207 | White space around an expression changes nothing, alone it gives undefined |
| `ExpressionTrees.MissingRightSide` | design/support.js:211-225 | A comparison without a right side compares with undefined |
| `ExpressionTrees.MissingLeftSide` | design/support.js:256 | An operator with nothing before it is none, and the text gives undefined |
| `ExpressionTrees.NoHeadIsUndefined` | design/support.js:231-265 | A text without brackets and signs of comparison that is no number, no string and does not begin as a name gives undefined |
| `ExpressionTrees.OtherTextIsUndefined` | design/support.js:289-291 | A path that goes on with anything else, as a sum does, gives undefined |
| `ExpressionTrees.BrokenPathIsUndefined` | design/support.js:269-271 | A path with a dot and no name behind it gives undefined |
| `ExpressionTrees.UnclosedBracketIsUndefined` | design/support.js:274-285 | A path with a bracket that is not closed gives undefined |
| `ExpressionTrees.PathIsWalked` | design/support.js:263-294 | A path at the start of a text is walked over and leaves its value |
| `ExpressionTrees.OperatorIsFound` | design/support.js:248-262 | In a printed comparison the operator found is the one printed |
| `ExpressionTrees.PrintIsShaped` | design/support.js:205-262 | A printed tree is balanced for each of the three nesting counters, and has no operator at the top unless it is a comparison |
| `ExpressionTrees.ClosingOf` | design/support.js:276-287 | The closing bracket found is the one printed, whatever balanced text lies between |
| `ExpressionTrees.QuotedIsText` | design/support.js:208-232 | A quoted text of any characters is a string literal if and only if no equality operator is found in it |
| `ExpressionTrees.QuotedOperatorIsMisread` | design/support.js:248-262 | A string literal with == in it is evaluated as a comparison |
| `PseudoCss.ScanUnquotedUrl` | design/support.js:1428-1440 | Where an unquoted url that starts here ends, or that none does |
| `PseudoCss.StripComments` | design/support.js:1441-1471 | The loop computes the text with each comment turned into a space |
| `PseudoCssForms.EveryTextHasForm` | design/support.js:1441-1471 | Every text that is not empty begins with a comment, a quote, an unquoted url or another character; the next rows say what becomes of each, closed or not, and so fix both loops |
| `PseudoCssForms.CommentMeans` | design/support.js:1457-1460 | A comment becomes one space and ends at the first end mark, or with the text |
| `PseudoCssForms.QuotedMeans` | design/support.js:1446-1456 | A quoted text, with backslashes and what they escape, is kept as it is and cut nowhere |
| `PseudoCssForms.OpenQuoteMeans` | design/support.js:1446-1456 | One that is not closed is kept to the end of the text and cut nowhere |
| `PseudoCssForms.UrlMeans` | design/support.js:1428-1440 | So is an unquoted url in letters of either case, where no word goes on before it |
| `PseudoCssForms.OpenUrlMeans` | design/support.js:1428-1440 | And one that is not closed |
| `PseudoCssForms.OtherMeans` | design/support.js:1478-1493 | Any other character is kept; a semicolon cuts exactly where no parenthesis is open, and a parenthesis closed too often opens none |
| `PseudoCssLaws.StripIsClean` | design/support.js:1441-1471 | No comment is left outside quotes and unquoted urls |
| `PseudoCssLaws.StripKeepsCleanText` | design/support.js:1441-1471 | A text is left as it is if and only if it has no comment |
| `PseudoCssLaws.CommentBecomesSpace` | design/support.js:1458-1461 | A comment behind a text that leaves no quote or url open becomes one space; the text before it is kept as it is and what follows is stripped on its own |
| `PseudoCssLaws.StripTwice` | design/support.js:1441-1471 | Stripping twice is stripping once |
| `Declarations.Split` | design/support.js:1472-1494 | The loop computes the pieces of the recursive cut |
| `Declarations.Importantify` | design/support.js:1472-1496 | The whole function: strip, cut, trim, drop, mark, join |
| `PseudoCssLaws.PiecesRejoin` | design/support.js:1472-1494 | The pieces, joined by semicolons, are the text again |
| `PseudoCssLaws.CutsAreRight` | design/support.js:1472-1494 | Of every text: nothing is lost by the cuts, each piece but the last leaves no quote, url or parenthesis open, and none has a top-level semicolon in it |
| `PseudoCssLaws.JoinedIsCutAgain` | design/support.js:1472-1494 | Good pieces joined are cut into the same pieces, and make no comment |
| `PseudoCssLaws.EveryDeclarationIsImportant` | design/support.js:1495 | Every declaration that comes out is trimmed, not empty and ends in an exclamation mark, white space or none, and the nine letters of important in either case |
| `PseudoCssLaws.ImportantMeans` | design/support.js:1495 | The test before the mark is added finds exactly those ends |
| `Spaces.TrimMeans` | design/support.js:1495 | Trimming takes off the white space at both ends, all of it and nothing else |
| `PseudoCssLaws.DeclarationsAreKept` | design/support.js:1495 | Every piece that is not blank comes out in its place, trimmed, with the mark added if and only if it does not end so already, and nothing else comes out |
| `PseudoCssLaws.ImportantDeclarations` | design/support.js:1472-1496 | The output has no comment and is cut into just the declarations put out |
| `PseudoCssLaws.ImportantTwice` | design/support.js:1472-1496 | importantify is idempotent on every text |
| `Sidecar.SlotStore.SetSlot` | design/image-slot.js:243-252 | The whole store after an edit or a deletion, before and after hydration |
| `Sidecar.SlotStore.Save` | design/image-slot.js:222-230 | Starts a write with the current slots, or marks it for later |
| `Sidecar.SlotStore.Hydrate` | design/image-slot.js:176-194 | The whole store after the answer of the first read, of an existing file, a missing one or a failure |
| `Sidecar.Merged` | design/image-slot.js:179-191 | Assignment, the loop that inherits images and the deletions compute the merge entry by entry |
| `Sidecar.SlotStore.RunQueuedSave` | design/image-slot.js:251 | A save that waited for the first read |
| `Sidecar.SlotStore.WriteDone` | design/image-slot.js:226-229 | The completion of a write, and the next one if something was saved meanwhile |
| `Sidecar.SidecarCatchesUp` | design/image-slot.js:172-252 | In every interleaving at most one write is under way, deleted ids are not kept ids, and after an edit the sidecar equals the slots whenever no save runs or waits |
| `Sidecar.EveryEditReachesDisk` | design/image-slot.js:200-230 | After an edit every continuation comes to rest within a bounded number of steps, and rests only with the sidecar equal to the slots |
| `Sidecar.RestIsReached` | design/image-slot.js:200-230 | Each step that is not an edit brings the store nearer to rest |
| `Sidecar.HydrationLosesNothing` | design/image-slot.js:176-194 | Over every run with an answered read, with the cases spelled out: a slot holds its last edit; one last edited before the answer without an image takes the url of the stored entry, if there is one; an untouched slot holds what the file held; at rest the sidecar says the same |
| `Sidecar.LastEditMeans` | design/image-slot.js:243-252 | The last edit of a slot is the one at the last place of the run at which it is edited |
| `Sidecar.EachEditQueuesSave` | design/image-slot.js:251 | Until the store has loaded each edit has queued exactly one save |
| `Sidecar.FailedReadForgetsSidecar` | design/image-slot.js:194 | After a failed read an untouched slot is empty, whatever the file held, and once the store is at rest after an edit the file has lost it too |
| `Sidecar.WhenStoredEntryIsKept` | design/image-slot.js:176-194 | An untouched slot holds after the answer what the file holds for it if and only if the read succeeded or the file holds nothing for it |
| `Sidecar.FailedReadLosesImage` | design/image-slot.js:194 | A run in which the first read fails, another slot is edited, and a stored image that nobody touched is gone from the file |
| `Sidecar.ClearedImageComesBack` | design/image-slot.js:187-191 | Over every run: a stored image cleared before the answer is back after it if and only if the last edit before the answer set the slot to no image or to that very one |
| `Sidecar.FramedAgainItIsBack` | design/image-slot.js:187-191 | A run of two edits before the answer that clears a stored image, frames the slot, and has the image back |
| `Sidecar.EditsWait` | design/image-slot.js:172-191 | Until the answer the store holds just the edits, remembers just the deletions and leaves the file alone |
| `CropGeometry.Cropper.ClampView` | design/image-slot.js:959-968 | The clamp; nothing while image or frame has no size |
| `CropGeometry.Cropper.Pan` | design/image-slot.js:649-657 | The clamped view after a drag |
| `CropGeometry.Cropper.Resize` | design/image-slot.js:622-637 | The whole drag of a corner: the view the specification gives, clamped |
| `CropGeometry.Cropper.Drag` | design/image-slot.js:638-648 | A move of the drag, from what the handler captured when it began |
| `CropGeometry.Cropper.Wheel` | design/image-slot.js:677-691 | The clamped view after a turn of the wheel, or no change at the end of the range |
| `CropGeometry.Cropper.Render` | design/image-slot.js:1074-1126 | The view after a render, taken from the store outside reframe mode and clamped if there is an image to show and its geometry is known |
| `CropGeometry.ClampedIsInFrame` | design/image-slot.js:959-968 | The clamp puts both axes right, and changes nothing exactly when they are |
| `CropGeometry.ClampIsNearest` | design/image-slot.js:959-968 | The clamp keeps the zoom, and of all views at that zoom that lie right none is nearer on either axis |
| `CropGeometry.InFrameMeans` | design/image-slot.js:949-968 | What the laws of placement say, in pixels: zoom from 1 to 5, and on each axis an image that is longer than the frame reaches both edges, one that is not is centred |
| `CropGeometry.BaselineFits` | design/image-slot.js:949-957 | A cover image is at least a frame long on both axes at every zoom, a contain image at most before it is zoomed |
| `CropGeometry.GestureStaysInFrame` | design/image-slot.js:622-691 | After any step but a load, from wherever the image was: it lies right if and only if the step clamped or it did before; only a wheel turn at the end of the zoom range does not clamp |
| `CropGeometry.ImageStaysInFrame` | design/image-slot.js:592-691 | After any run of loads, renders, gestures and frame changes from the unmeasured start the zoom is from 1 to 5; if the view has been clamped since the last load, each axis covers the frame or is centred, and a cover image leaves no part bare |
| `CropGeometry.WhenInFrame` | design/image-slot.js:592-596 | After any run with known geometry: the image lies right, and a cover image fills the frame, if and only if the view has been clamped since the last load or both offsets are within half the overflow |
| `CropGeometry.StandsAsLoaded` | design/image-slot.js:592-596 | A view that has not been clamped since is the one that a load found |
| `CropGeometry.FirstLoad` | design/image-slot.js:592-596 | A first render and the load that follows show the stored view as it is, for every image, frame and stored view; it lies right exactly when its offsets are in range |
| `CropGeometry.LoadLeavesStripBare` | design/image-slot.js:592-596 | A cover image stored 40 percent off its centre leaves a strip bare when it has loaded, and a wheel turn at the end of the zoom range does not repair it |
| `CropGeometry.WheelFixesCursor` | design/image-slot.js:685-688 | Before the clamp, zooming keeps the point under the cursor |
| `CropGeometry.PanFollowsPointer` | design/image-slot.js:652-654 | Before the clamp, a pan moves the image just as far as the pointer, at the same zoom |
| `CropGeometry.ZoomMeans` | design/image-slot.js:676-691 | After each step but a corner drag the zoom is, in the range from 1 to 5, the nearest to the one the step asks for: wheel, render, pan, load |
| `CropGeometry.ResizeFollowsPointer` | design/image-slot.js:638-641 | Before the clamp, the zoom is the nearest in the range from 1 to 5 to the one at which the diagonal is as long as the pointer is away from the fixed corner along it, and within the range the diagonal is just so long |
| `CropGeometry.ResizeFixesOppositeCorner` | design/image-slot.js:629-646 | Before the clamp, wherever the pointer is, a corner drag keeps the place of the opposite corner and the proportions |

## Left out

- Tables and columns that no rule reads: cost, notes, mechanics, parts of a record not yet committed; an insert of a record and of its operations and parts is one step.
- Malformed record ids (`validID`), which are answered like ids that are not there.
- Times and durations are unbounded integers: the overflow of int64 nanoseconds and of `time.Unix` at its extremes is not modelled. Clocks never go back within a run.
- Float rounding: tokens, rates and lengths are reals.
- A commit that fails is one that did not happen; a connection lost after the server has committed is not modelled.
- Uploads.ObjectsAreAccounted: a bucket that has stored or removed an object and whose answer is lost; the object is then on no account, or its URL among the failed deletions without it.
- RateLimiting.RateLimiter.Allow: the mutex makes a call one step; waiting for it is not modelled, and the rate is taken to be positive.
- LoginThrottling.Login: what follows a success (the token, which may fail to be made) has no part in the throttle.
- LoginThrottling.GuessesAreBounded: logins are handled one at a time, since the handler holds no lock between asking and reporting; password hashing and the lookup are outcomes given from outside.
- `NewSigner`: the check that the secret has 32 bytes and the ttl is positive.
- TokenLaws.IssueThenVerify: the MAC is any function; nothing is said of how hard it is to forge, and the expiry is taken to fit into int64.
- Hydration.Hydrate: the tables do not change between the three queries, and a query that fails is not modelled.
- ObjectStorage.ObjectNameInvertsPut: addresses with a scheme and a host, without user information, bracketed IPv6 hosts, percent-encoding, query or fragment; `path.Join` is modelled for prefixes that are record ids, not for `.` and `..`.
- Repositories.Repository.Write: sequential; what other transactions do between its statements is in module Transactions.
- Cnpj.ValidateCNPJ: strings of one-byte characters, as `NormalizeCNPJ` delivers them.
- Expressions.ResolvePath: a property read has no effect and throws nothing; characters are Unicode scalars rather than UTF-16 units.
- ExpressionTrees.EvaluatingTheText: string literals with unbalanced parentheses or brackets, or with `==` or `!=` outside them, which the scanners take for syntax; of a literal that stands alone `QuotedIsText` says exactly what becomes of it.
- Sidecar.SidecarCatchesUp: a host that writes what it is sent; without a writer, or when a write fails, nothing reaches the sidecar. The flush on unload, the subscribers and stored values that are neither strings nor objects are not modelled.
- CropGeometry.ImageStaysInFrame: a change of the frame's size is one step with the render that it brings about before anything is painted. `Math.hypot` and `Math.pow` are any positive diagonal and any factor.
- CropGeometry.Cropper.Resize: the sizes at the start of a drag are parameters, as the handler captured them.
- Ownership.HeldUntilReleased: the figures that Claim returns are those of module Odometer; owners and vehicles are not deleted.
- HTTP, generated code, the SQL driver, the object-storage client, multipart parsing, content sniffing, logging, configuration, time zones, and the user interface of the two scripts.
- Field length checks, the operation table, list limits, reminders and the enum conversions: one branch or a finite table each.
