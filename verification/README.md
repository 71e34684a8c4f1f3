# StellarTip backend: a verified model of its stateful core

This project models, in Dafny, the parts of the StellarTip backend whose behaviour spans several
functions or whole runs, and proves what they keep.

- **The Redis-backed rate limiter.** `Bytes` (UTF-8 and numerals) and `Resp` hold the wire format:
  the printer of commands and the incremental decoder of replies. `RedisConnection` is the object
  that appends chunks to its buffer, re-parses from 0 and drops what it consumed. `ThrottlerScript`
  is the script Redis runs atomically over two expiring keys, command by command, with the
  one-step specification it is proved against. `ThrottlerRuns` proves bounds over the calls on one
  key, any of which may fail before or after the script. `ThrottlerLog` is an independent account
  that keeps no counters, only the list of request times, and is proved to take the same decisions.
  `ThrottlerStorage` joins the layers: bytes sent, reply received, record handed to the guard.
  `BrokenReplies` says what the bytes of a reply that broke off do to the next command, and
  `WireRuns` lifts the bound and the refinement to runs of many instances, connections and keys,
  byte by byte.
- **The tip ledger.** `TipTable` holds rows, unique columns and the readers of untyped payloads;
  `TipLedger` the requests that create, confirm and ingest tips; `LedgerRuns` conservation of
  amounts over whole runs; `WebhookLog` redelivery and reordering; `WebhookInterleaving` handlers
  that run at the same time, split at every await, and may die between two steps.
- **Smaller machines.** `RefreshTokens` (rotation and revocation, whole requests),
  `RefreshInterleaving` (the same requests split at every await), `VerificationCache` (the 60-second
  cache and its notices), `TipQueries` (filters, pages, the index of a tip), `Analytics`
  over `Aggregates` (four aggregate queries that must agree).

Code that updates fields in place is a class whose methods are proved equal to a step function on
values; the run theorems are about those step functions. Times are milliseconds, amounts are
integers in units of 10^-7. A Redis key is live while the clock is before its expiry, and the clock
never goes backwards within a run.

Places where the code does something its documentation or a reader might not expect, each stated
as a theorem:

- An error reply is never removed from the connection's buffer. The first error answers every later
  command on that connection, so the limiter admits every later request (`SessionAnswersExactly`
  says what each command is told; `ErrorReplyDisablesLimiter`).
- The bytes of a reply that broke off midway stay in the buffer and are parsed together with the
  next reply. The next command is told its own answer if and only if nothing stayed
  (`OwnAnswerExactly`); from any buffer it is told its own answer and leaves a clean connection if
  and only if it found one (`CleanAnswerExactly`). `BreakAnswer` and `BreakDecision` go through every
  place an answer can break off: a request the script blocked can pass, one it admitted can be
  refused, or it waits. Hence the bound, the refinement and the absence of false refusals hold for
  every run in which no reply breaks off midway (`RunBound`, `RunRefinesLog`,
  `RunHasNoFalseRefusals`), and one broken reply is enough to lose the bound
  (`BrokenReplyBreaksBound`) or to refuse a client within the rate (`BrokenReplyRefusesFalsely`).
- A connection that has fallen behind stays behind by as many replies as long as every reply arrives
  in one chunk (`LagPersists`); a reply that arrives in two can heal the lag (`LagCanHeal`).
- After a block ends, the next request is admitted if and only if the hit window has ended too
  (`AfterBlockExactly`). With a block shorter than the window a client can be refused again at once
  (`ShortBlockRefusesAgain`); with `blockDuration >= ttl` it never is (`FirstAfterBlockAdmitted`).
- The two unique columns do not exclude each other. No sequence of whole webhooks puts one hash in
  both (`WebhookRunCrossUnique`), and no interleaving does unless a tip event and a withdrawal event
  arrive with the same hash (`ColumnsStayApart`); two such events can (`SharesHashExactly`).
- A valid tip event is stored exactly once in every interleaving in which no withdrawal event
  arrives with its hash (`ValidTipExactlyOnce`). A withdrawal event with that hash that is handled
  first makes the tip event a duplicate, and the tip is lost (`TipSurvivesExactly`).
- A handler that dies between saving its tip and notifying is never made good: every redelivery is
  a duplicate (`LostNoticeStaysLost`, `ExactlyOnceWhenSettled`).
- The expiry of a cached verification counts from the moment it is cached, not from the moment it
  was computed. A result is served 60 seconds or more after it was computed if and only if caching
  it took time (`CachedResultsAreFresh`, `LateWriteServedStale`).
- A lasting mismatch is notified twice within a minute exactly when the second call reads before
  the first has cached its result, or reads the store the first did not write
  (`SecondNoticeExactly`; for any number of calls, `MissExactly`).
- A refresh token is single-use among requests that do not overlap (`SingleUse`). Two that overlap
  are both accepted exactly when the second looks the token up before it is revoked
  (`SecondUseExactly`), and revoking a user's tokens does not stop a refresh already under way
  (`LockoutExactly`).
- A withdrawal event without a status is rejected (`MissingStatusIsRejected`), although the source
  has a branch that reads as if it counted as completed (`src/stellar/stellar.service.ts:612-623`).
  `WithdrawalAppliedExactly` says when a withdrawal is applied.
- A null array `*-1` is read as an empty list, not as null (`ReadsReply`, with `Denote` of a null
  array).

## Model

| member | source | states |
|---|---|---|
| Bytes.IntTextRoundTrip | src/config/redis-throttler.storage.ts:125-129 | reading a printed integer with `Number(line)` gives the integer back, for every integer |
| Bytes.Utf8Injective | src/config/redis-throttler.storage.ts:94-101 | no two texts have the same UTF-8 bytes, so an argument's bytes determine it |
| Bytes.Utf8IsStandard | src/config/redis-throttler.storage.ts:94-101 | the bytes of a character are those of RFC 3629: one to four by its code, lead and continuation bytes, six bits in each of the latter |
| Bytes.AsciiIsSentAsCodes | src/config/redis-throttler.storage.ts:94-101 | an ASCII text is sent as its character codes, one byte each |
| Bytes.NumeralsAreDecimal | src/config/redis-throttler.storage.ts:94-101 | numerals are written in decimal with the digits 0 to 9, most significant first, and a minus sign |
| Resp.ParseAt | src/config/redis-throttler.storage.ts:103-155 | progress: a success starts inside the buffer and returns an offset beyond its start and inside the buffer, across nested arrays; the recursion terminates on every buffer |
| Resp.ParseItems | src/config/redis-throttler.storage.ts:139-151 | the array loop yields exactly as many values as the header says and never moves backwards |
| Resp.IndexOfCrlfIsFirst | src/config/redis-throttler.storage.ts:109-112 | the line end found is a CRLF and the first one at or after the offset; without one there is none |
| Resp.ParseStable | src/config/redis-throttler.storage.ts:103-155 | stability: once a parse gives a value or an error, bytes that arrive later change neither the result nor the offset |
| Resp.ReadsReply | src/config/redis-throttler.storage.ts:103-155 | at any position of any buffer the decoder reads an encoded RESP2 reply back: its value and the offset after it, or the first error it contains, through any nesting |
| Resp.EncodeIsResp | src/config/redis-throttler.storage.ts:118-155 | what the theorems call an encoded reply is, byte by byte, the RESP2 format: `+`, `-`, `:`, `$` and `*` by their codes, decimal lengths, CR LF |
| Resp.LinesAreRead | src/config/redis-throttler.storage.ts:118-124 | for every line and integer, with the type byte given by its code: a simple string is its text, an error throws its text, an integer is its number, and the offset is after CR LF |
| Resp.BulksAndArraysAreRead | src/config/redis-throttler.storage.ts:125-151 | likewise bulk strings of any bytes, arrays, the null bulk string and the null array |
| Resp.OtherPrefixesThrow | src/config/redis-throttler.storage.ts:153-155 | any other first byte throws as soon as its line is complete and waits before |
| Resp.CutReplyNeedsMore | src/config/redis-throttler.storage.ts:103-138 | a reply without errors that is cut anywhere before its end is never taken for complete |
| Resp.EncodingUnambiguous | src/config/redis-throttler.storage.ts:103-155 | two reply streams with the same bytes begin with the same value and leave the same rest |
| Resp.SerializeIsEncode | src/config/redis-throttler.storage.ts:94-101 | the bytes of a command are the RESP encoding of the array of its arguments, with lengths in bytes rather than characters |
| Resp.SerializeRoundTrip | src/config/redis-throttler.storage.ts:94-155 | for every argument list, CRLF and multi-byte characters included, parsing the serialized command followed by anything gives exactly the stringified arguments and the command's length |
| Resp.SerializePrefixNeedsMore | src/config/redis-throttler.storage.ts:94-155 | every strict prefix of a serialized command parses to "need more" |
| Resp.SerializeInjective | src/config/redis-throttler.storage.ts:94-101 | two commands with the same bytes have the same stringified arguments |
| RedisConnection.DeliveryDependsOnBytes | src/config/redis-throttler.storage.ts:28-65 | a command's outcome and the unconsumed bytes are those of one parse of all the bytes, errors included |
| RedisConnection.ChunkingIndependence | src/config/redis-throttler.storage.ts:28-65 | two splittings of the same bytes give the same outcome and leave the same bytes |
| RedisConnection.ReplyDelivered | src/config/redis-throttler.storage.ts:28-65 | however an error-free reply is split, the command resolves with its value and the buffer is empty |
| RedisConnection.ErrorDelivered | src/config/redis-throttler.storage.ts:44-48 | however an error reply is split, the command is rejected with the first error in it |
| RedisConnection.SessionAnswersInOrder | src/config/redis-throttler.storage.ts:28-65 | in a session without error replies the i-th command resolves with the i-th reply and nothing is left over |
| RedisConnection.SessionAnswersExactly | src/config/redis-throttler.storage.ts:28-65 | with one command outstanding at a time and replies that may contain errors, what every command is told: its own reply while no error has come, and from the first error on that error; the buffer ends empty if and only if there was none |
| RedisConnection.LagPersists | src/config/redis-throttler.storage.ts:33-43 | while replies arrive in one chunk each, a connection with n whole replies in its buffer tells each command the reply due n commands earlier, and ends with n replies in its buffer |
| BrokenReplies.LagCanHeal | src/config/redis-throttler.storage.ts:33-43 | a connection one answer behind has an empty buffer again after two commands when the last number of the first reply arrives in a chunk of its own, which nobody listens for |
| RedisConnection.RedisCommandConnection.Parse | src/config/redis-throttler.storage.ts:103-155 | the decoder with its loop over `currentOffset` and `values` computes the recursive specification on the buffer field |
| RedisConnection.RedisCommandConnection.OnData | src/config/redis-throttler.storage.ts:33-49 | one chunk: the new buffer is what one parse of old buffer and chunk leaves, and the outcome is that parse's |
| RedisConnection.RedisCommandConnection.Command | src/config/redis-throttler.storage.ts:28-65 | a whole command consumes chunks until it settles, with the outcome, buffer and unused chunks of the specification |
| ThrottlerScript.NamesNeverCollide | src/config/redis-throttler.storage.ts:177-178 | no two throttle keys share a Redis key, whatever their texts, and hit keys never meet block keys |
| ThrottlerScript.RedisStore.Incr | src/config/redis-throttler.storage.ts:218-221 | INCR keeps the expiry of a live key and starts a missing one at 1 without expiry |
| ThrottlerScript.RedisStore.Pttl | src/config/redis-throttler.storage.ts:211-214 | PTTL gives the time left, -1 without expiry and -2 for a key that is gone |
| ThrottlerScript.RedisStore.Eval | src/config/redis-throttler.storage.ts:204-230 | the script, command by command, is one step of the hits/blocked automaton of its throttle key and leaves every other throttle key's counter alone |
| ThrottlerRuns.StepPays | src/config/redis-throttler.storage.ts:211-229 | every executed request pays for its own admission out of what the window structure can still admit |
| ThrottlerRuns.SegmentBound | src/config/redis-throttler.storage.ts:166-230 | from any state, calls on a key within k * ttl of each other, each of which is told the script's decision or fails, admit at most (k + 1) * limit requests plus one per failed call |
| ThrottlerRuns.BoundIsTight | src/config/redis-throttler.storage.ts:204-230 | for every limit, ttl and k, `limit` calls at each of k + 1 multiples of ttl are all admitted: the bound is reached |
| ThrottlerRuns.RunsStayReachable | src/config/redis-throttler.storage.ts:204-230 | in every run a live block implies a recorded overflow, and keys expire within their durations |
| ThrottlerRuns.BlockedRunChangesNothing | src/config/redis-throttler.storage.ts:211-216 | while a block is live, any number of calls neither raises the hit count nor extends the block, and only failed calls pass |
| ThrottlerRuns.AfterBlockExactly | src/config/redis-throttler.storage.ts:211-229 | after a refusal and the end of its block the next request passes if and only if the hit window has ended as well |
| ThrottlerRuns.ShortBlockRefusesAgain | src/config/redis-throttler.storage.ts:218-226 | for every limit of at least 1 and every block shorter than the window, a client that overflows at once is refused again, and blocked anew, the moment its block ends |
| ThrottlerRuns.StoredHitsBounded | src/config/redis-throttler.storage.ts:218-226 | with blockDuration >= ttl and limit >= 1 no run stores more than limit + 1 hits |
| ThrottlerRuns.FirstAfterBlockAdmitted | src/config/redis-throttler.storage.ts:211-229 | with blockDuration >= ttl and limit >= 1 the first request after any block of any run is admitted |
| ThrottlerRuns.PauseRestoresService | src/config/redis-throttler.storage.ts:204-230 | after a pause of max(ttl, blockDuration) a request is admitted, whatever the run before it |
| ThrottlerLog.CountersRefineLog | src/config/redis-throttler.storage.ts:204-230 | refinement: on every log the two expiring keys take the decision that the full list of earlier request times gives |
| ThrottlerLog.AnswersRefineLog | src/config/redis-throttler.storage.ts:211-229 | the numbers answered are those of the list: requests counted in the window, time until the window closes, time until the block in force ends |
| ThrottlerLog.NoFalseRefusals | src/config/redis-throttler.storage.ts:218-229 | if every half-open span of length ttl holds at most `limit` requests, none is refused |
| ThrottlerStorage.MillisecondsToSeconds | src/config/redis-throttler.storage.ts:232-234 | the least number of whole seconds, at least 0, that covers the milliseconds |
| ThrottlerStorage.RedisThrottlerStorage.Increment | src/config/redis-throttler.storage.ts:166-201 | the bytes sent, the record or fail-open record returned for a reply of any shape, and the buffer left behind, for any buffer before, any chunks and a socket that breaks while the command waits |
| ThrottlerStorage.ScriptReceivesItsArguments | src/config/redis-throttler.storage.ts:173-182 | decoding the bytes sent gives EVAL, the script, 2 keys, the names `<key>:hits` and `<key>:blocked` and the three numbers, so KEYS and ARGV are split where the script expects it |
| ThrottlerStorage.GuardSeesScriptDecision | src/config/redis-throttler.storage.ts:166-201 | end to end, from the text `*4` and four `:` lines that Redis writes, on a connection with an empty buffer: however that text is cut into chunks, the guard gets its hits and its flag, and its two durations in the least whole seconds that cover them, and the buffer is empty again |
| ThrottlerStorage.AnswerIsText | src/config/redis-throttler.storage.ts:204-230 | the encoded answer is that text |
| ThrottlerStorage.FailureAllows | src/config/redis-throttler.storage.ts:184-200 | a failed command, a null reply, a bare number and an empty list all allow the request, with no hits, the window in seconds and no block |
| ThrottlerStorage.TextReplyBlocks | src/config/redis-throttler.storage.ts:184-189 | a reply that is an ASCII text blocks the request exactly when it has a third character |
| ThrottlerStorage.RetryAfterOutlastsBlock | src/config/redis-throttler.storage.ts:184-189 | waiting the reported seconds outlasts the block, and one second less does not |
| ThrottlerStorage.ErrorReplyDisablesLimiter | src/config/redis-throttler.storage.ts:190-200 | in a session from a clean connection, from the first command whose reply contains an error on, every request is admitted, whatever Redis answers |
| BrokenReplies.OwnAnswerExactly | src/config/redis-throttler.storage.ts:28-65 | whatever part p of an answer a broken socket left in the buffer, and however the next answer is split: the next command resolves with its own answer if and only if p is empty |
| BrokenReplies.CleanAnswerExactly | src/config/redis-throttler.storage.ts:28-65 | from any buffer at all: the command resolves with its own answer and leaves the buffer empty if and only if the buffer was empty |
| BrokenReplies.BreakAnswer | src/config/redis-throttler.storage.ts:33-43 | what the next command is told and what it leaves behind, for every place an answer can break off: within the header, right before a number, within a number |
| BrokenReplies.EveryBreak | src/config/redis-throttler.storage.ts:33-43 | every strict part of an answer ends in one of these places |
| BrokenReplies.BreakDecision | src/config/redis-throttler.storage.ts:184-189 | what the guard then decides, for every such place: admitted with the record of a failed command, refused by a time to live, waiting, or the earlier decision again |
| BrokenReplies.MixedAnswer | src/config/redis-throttler.storage.ts:33-43 | after a break within number i the next command resolves with the numbers before i of the old answer, NaN, and the first numbers of its own, and leaves the rest of its own behind |
| BrokenReplies.MixedDecision | src/config/redis-throttler.storage.ts:184-189 | the flag the guard reads after a break within number i: NaN, a time to live, a hit count or the old flag |
| WireRuns.RunBound | src/config/redis-throttler.storage.ts:9-65 | in every run of any number of instances and keys in which no reply breaks off midway, with error replies and any other failures, any stretch of length k * ttl passes at most (k + 1) * limit requests of a key plus one for each of its failed calls |
| WireRuns.RunRefinesLog | src/config/redis-throttler.storage.ts:166-230 | in every such run a call that is told anything passes exactly when the times at which the script ran for its key say so |
| WireRuns.RunHasNoFalseRefusals | src/config/redis-throttler.storage.ts:166-230 | in every such run a client that keeps to the rate is never refused, whatever else fails |
| WireRuns.UnbrokenIsTold | src/config/redis-throttler.storage.ts:28-65 | one request of such a run: a call that is told anything is told the script's decision on it, every other call is admitted, and each buffer stays empty or goes on throwing an error |
| WireRuns.BrokenReplyBreaksBound | src/config/redis-throttler.storage.ts:9-65 | for all limits there is a run with a single broken reply, and a single failed call, in which limit + 5 requests of one instant pass |
| WireRuns.BrokenReplyRefusesFalsely | src/config/redis-throttler.storage.ts:9-65 | for every limit of at least 2 a broken reply makes the next request refused although the client keeps to the rate |
| TipTable.TrimIsExact | src/stellar/stellar.service.ts:567-584 | trimming cuts all the white space at both ends and nothing else; the result is empty exactly for white space |
| TipTable.SpaceExactly | src/stellar/stellar.service.ts:567-584 | what counts as white space, by character code |
| TipTable.ReadAmountExactly | src/stellar/stellar.service.ts:586-595 | an amount is accepted exactly when the field stands for a positive number, and is that number |
| TipTable.NormalizeAssetExactly | src/stellar/stellar.service.ts:597-609 | an asset is accepted exactly when it is absent, blank, or spells xlm or usdc in any case, and is the asset it spells |
| TipTable.AssetSpelled | src/stellar/stellar.service.ts:597-609 | which texts have the upper case XLM or USDC, letter by letter |
| TipTable.StatusSpelled | src/stellar/stellar.service.ts:612-623 | which texts have the lower case pending, failed or completed, letter by letter |
| TipTable.TipEventExactly | src/stellar/stellar.service.ts:489-521 | a tip event stands for a row if and only if its payload is valid, and every column of that row from the payload and the configuration |
| TipTable.CreatedTipExactly | src/tips/tips.service.ts:292-351 | a creation request stands for a row if and only if it is valid, and every column of that row from the request and the configuration |
| TipTable.FindByIdExactly | src/tips/tips.service.ts:485-488 | a text finds a row if and only if it is the id of that row |
| TipTable.FindByHash | src/stellar/stellar.service.ts:549-553 | finds a row with the hash, or the column does not hold the hash |
| TipLedger.WebhookChangesOnlyWhen | src/stellar/stellar.service.ts:397-428 | in any state, reachable or not, a webhook changes anything only if it is authentic, fresh within five minutes either way, and carries a hash in neither column; then it adds one row and its notification, or sets the two withdrawal columns of a single row and changes nothing else |
| LedgerRuns.RequestStoredExactly | src/tips/tips.service.ts:292-351 | after any run a creation request is stored if and only if it is valid and its hash, if any, is no tip's; it adds the row it stands for, column by column, and notifies nobody, and otherwise changes nothing |
| LedgerRuns.WebhookRefusedExactly | src/stellar/stellar.service.ts:397-487 | each reason to turn a webhook away has its answer, and the answer is given only for that reason: signature, date, replay window of five minutes, missing hash, duplicate, topic |
| LedgerRuns.LinkedExactly | src/stellar/stellar.service.ts:537-553 | a withdrawal event refers to the tip whose id it gives, whatever else it says; without an id to the tip with the hash it names; and to none without either |
| LedgerRuns.TipStoredExactly | src/stellar/stellar.service.ts:397-531 | after any run a tip event is stored if and only if it is signed, fresh, names a hash that stands in neither column and has a valid payload; it adds the row it stands for, column by column, and one notification with that row's creator, sender, amount and asset, and otherwise changes nothing |
| LedgerRuns.WithdrawalAppliedExactly | src/stellar/stellar.service.ts:533-565 | after any run a withdrawal event is applied if and only if it is signed, fresh, names a hash that stands in neither column, refers to a stored tip by id or else by hash, and names one of three statuses; that tip then has that status and the event's hash and nothing else changes; it is ignored if and only if it refers to no tip |
| LedgerRuns.MissingStatusIsRejected | src/stellar/stellar.service.ts:612-623 | a withdrawal event for a stored tip without a status changes nothing and is answered with an error |
| TipTable.StatusReadExactly | src/stellar/stellar.service.ts:612-623 | a status is accepted as pending, failed or completed exactly when it spells that word in any case after trimming |
| TipLedger.TipService.CreateTip | src/tips/tips.service.ts:292-351 | the method has exactly the effect and answer of the creation step |
| TipLedger.TipService.ConfirmTip | src/tips/tips.service.ts:484-493 | the method has exactly the effect and answer of the confirmation step |
| TipLedger.TipService.HandleContractWebhook | src/stellar/stellar.service.ts:397-428 | the method has exactly the effect and answer of the webhook step |
| TipLedger.TipService.PersistTipEvent | src/stellar/stellar.service.ts:489-531 | storing a row and then notifying its creator is exactly the tip-event step |
| TipLedger.TipService.PersistWithdrawalEvent | src/stellar/stellar.service.ts:533-565 | assigning the two withdrawal fields and saving is exactly the withdrawal step |
| LedgerRuns.RunKeepsColumns | src/entities/tip.entity.ts:70-92 | no run of creations, confirmations and webhooks breaks either unique column |
| LedgerRuns.ConfirmExactly | src/tips/tips.service.ts:484-493 | after any run a confirmation succeeds exactly when the id is that of a stored tip and no other tip carries the hash; the tip is then completed under the hash, all its other columns and all other tips stay as they are; an unknown id is answered as such |
| LedgerRuns.RunKeepsBooks | src/tips/tips.service.ts:292-351 | in every run each row keeps the amount and account it was issued with, and is completed exactly if it was stored completed or has been confirmed |
| LedgerRuns.Conservation | src/tips/tips.service.ts:292-351 | after any run an account's total, in money and in tips, equals the credits of the answers given: accepted tip events, tips created with a hash, first confirmations, and nothing else |
| LedgerRuns.StatsReportTotal | src/tips/tips.service.ts:568-601 | `getTipStats` has one row per asset and issuer, and its row is the number and the sum of that creator's completed tips |
| LedgerRuns.StatsConserved | src/tips/tips.service.ts:568-601 | after any run `getTipStats` has one row per asset and issuer, every row is the number and the sum of the credits in the answers, and no credited account is missing |
| WebhookLog.WebhookRunCrossUnique | src/stellar/stellar.service.ts:405-417 | in every sequential run of webhooks a hash occurs at most once across both columns together |
| WebhookLog.RedeliveryHarmless | src/stellar/stellar.service.ts:397-531 | processing a log of tip events gives the same tips and notifications as processing the first delivery of each hash |
| WebhookLog.OrderIndependence | src/stellar/stellar.service.ts:397-531 | two logs that mention the same events, in any order and multiplicity, store the same tips and send the same notifications up to ids |
| WebhookLog.PermutationsAgree | src/stellar/stellar.service.ts:397-531 | every permutation of a log gives the same tips and notifications up to ids |
| WebhookInterleaving.ReachableInv | src/stellar/stellar.service.ts:397-531 | in every interleaving, with any crashes: hashes are unique, notifications fit stored tips, and a handler about to notify owns its row |
| WebhookInterleaving.AtMostOncePerHash | src/stellar/stellar.service.ts:397-531 | in every interleaving each hash has at most one tip and at most one notification, and every notification repeats a stored tip |
| WebhookInterleaving.ExactlyOnceWhenSettled | src/stellar/stellar.service.ts:523-530 | once all handlers have finished, each stored tip has exactly one notification if and only if no crash hit a handler between saving and notifying |
| WebhookInterleaving.ValidTipIsStored | src/stellar/stellar.service.ts:397-531 | no valid event is lost: in every interleaving, whatever else crashes, a handler that started with a valid tip event and got past saving leaves exactly one row with its hash, provided no withdrawal event arrives with that hash |
| WebhookInterleaving.ValidTipExactlyOnce | src/stellar/stellar.service.ts:397-531 | from delivery to notification: in a settled run without a lost notification such an event has exactly one row with exactly one notification, and the row says what an arrived tip event with that hash says |
| WebhookInterleaving.RowsComeFromEvents | src/stellar/stellar.service.ts:489-521 | in every interleaving every stored row is, but for its withdrawal columns, the row of a tip event that arrived |
| WebhookInterleaving.TipSurvivesExactly | src/stellar/stellar.service.ts:405-417 | after any run, a valid tip event is stored in every interleaving with a storable withdrawal event if and only if the two carry different hashes |
| WebhookInterleaving.LostNoticeStaysLost | src/stellar/stellar.service.ts:405-417 | a tip whose handler died between saving and notifying is never notified in any continuation, redeliveries included, because its hash is a duplicate from then on |
| WebhookInterleaving.SoloHandlerIsAtomic | src/stellar/stellar.service.ts:397-565 | a handler nobody interrupts does in its steps exactly what the whole webhook step does |
| WebhookInterleaving.InterleavingSharesHash | src/stellar/stellar.service.ts:472-487 | after any run, a tip event and a withdrawal event with one new hash can interleave so that the hash stands in both columns |
| WebhookInterleaving.ColumnsStayApart | src/stellar/stellar.service.ts:405-417 | in every interleaving, with any crashes, in which no arriving tip event shares its hash with an arriving withdrawal event, a hash occurs at most once over both columns |
| WebhookInterleaving.SharesHashExactly | src/stellar/stellar.service.ts:405-487 | after any run, two storable events can be interleaved so that the columns share a hash if and only if the two carry the same hash |
| RefreshTokens.AuthService.CreateRefreshToken | src/auth/auth.service.ts:261-273 | issues one unrevoked token with the configured lifetime and changes no other |
| RefreshTokens.AuthService.RefreshToken | src/auth/auth.service.ts:207-245 | the method has exactly the effect and answer of the rotation step |
| RefreshTokens.AuthService.RevokeUserRefreshTokens | src/auth/auth.service.ts:247-252 | revokes exactly the user's tokens |
| RefreshTokens.SingleUse | src/auth/auth.service.ts:212-232 | in every atomic run a token that was refreshed once is invalid at every later request |
| RefreshTokens.RevokedForever | src/auth/auth.service.ts:229-252 | no request ever makes a revoked token valid again |
| RefreshTokens.RevokedUserLockedOut | src/auth/auth.service.ts:247-252 | after `revokeUserRefreshTokens` no token the user held is ever accepted |
| RefreshTokens.AcceptedWithinLifetime | src/auth/auth.service.ts:221-238 | a token is accepted only within the configured number of days, only for an active user, and yields a token of the same user |
| RefreshTokens.RefreshAnsweredExactly | src/auth/auth.service.ts:207-273 | the answer to every refresh with an issued token, in every run: invalid if and only if it was used or its user revoked in between, else expired if and only if more than the configured days have passed since it was issued, else deactivated if and only if the account is switched off, else the next token, for the same user |
| RefreshTokens.OtherAnswersExactly | src/auth/auth.service.ts:207-273 | every login is given the next token, for the user who logged in, and a token that was never issued is invalid |
| RefreshTokens.RunKeepsLineages | src/auth/auth.service.ts:207-273 | the lineage invariant of every run: one user, and an unrevoked token exactly while not ended, always the latest |
| RefreshTokens.OneLiveTokenPerLogin | src/auth/auth.service.ts:207-273 | each login has exactly one unrevoked descendant, its latest, until the user is revoked, and none from then on |
| RefreshInterleaving.SoloRefreshIsAtomic | src/auth/auth.service.ts:207-245 | a request nobody interrupts does in its steps exactly what the whole rotation step does |
| RefreshInterleaving.SecondUseExactly | src/auth/auth.service.ts:212-232 | in every interleaving a second request for a token that was accepted is accepted too if and only if no step in between revoked the token, it is in time and the user is active |
| RefreshInterleaving.OverlappingRefreshesBothSucceed | src/auth/auth.service.ts:212-232 | two requests for one token that both look it up before either revokes it both get a new token |
| RefreshInterleaving.LockoutExactly | src/auth/auth.service.ts:247-252 | after all tokens of a user were revoked, the user can hold a live token again without logging in if and only if an accepted refresh request of the user was under way |
| VerificationCache.TipsService.ReadVerificationCache | src/tips/tips.service.ts:112-135 | reads the store in use and sweeps an expired local entry, exactly as the read step |
| VerificationCache.TipsService.WriteVerificationCache | src/tips/tips.service.ts:137-153 | writes the store in use only, with an expiry 60 seconds away |
| VerificationCache.TipsService.VerifyTipOnChain | src/tips/tips.service.ts:495-566 | a call is exactly read, and on a miss verify, notify a mismatch, and write, each at its own time, with the store in use at the read and at the write |
| VerificationCache.RunBacked | src/tips/tips.service.ts:112-153 | in every interleaving each cached entry was written by some call, holds what a full verification gave at the time that call computed it, and expires 60 seconds after it was written |
| VerificationCache.CallAnswersExactly | src/tips/tips.service.ts:495-566 | what every call answers after any run: on a miss what a full verification gives when it is computed, or not found; on a hit what a full verification gave to the call that cached last in that store, less than 60 seconds before; and which of them it is |
| VerificationCache.CallLeavesExactly | src/tips/tips.service.ts:495-566 | what every call leaves behind: a verified result is cached for 60 seconds in the store open then, after a notice if and only if it is a mismatch; other answers cache and notify nothing, and other tips' entries are not touched |
| VerificationCache.CachedResultsAreFresh | src/tips/tips.service.ts:495-566 | in every interleaving, even if the Redis store opens and closes, a cached result is what a full verification of that tip gave, and its age is below 60 seconds plus the time from computing it to caching it |
| VerificationCache.PromptWritesStayFresh | src/tips/tips.service.ts:495-566 | if no call takes longer than d from its result to its cache entry, every cached result is less than 60 s + d old; less than 60 s when d = 0 |
| VerificationCache.LateWriteServedStale | src/tips/tips.service.ts:547-565 | after any run a result is at some time served 60 seconds or more after it was computed if and only if it was cached later than it was computed |
| VerificationCache.DiscrepancyNoticesSpaced | src/tips/tips.service.ts:495-566 | with one store in use and sequential calls, mismatch notices of a tip are at least 60 seconds apart |
| VerificationCache.SecondNoticeExactly | src/tips/tips.service.ts:495-566 | of two mismatching calls of one tip, overlapping in any way and with nothing cached before the first, the second notifies as well if and only if it reads before the first has cached its result, or reads the store the first did not write, or reads at least 60 seconds after the first was cached |
| VerificationCache.MissExactly | src/tips/tips.service.ts:112-135 | in every interleaving of any number of calls a call has to verify again if and only if no call has cached a result of the tip in the store it reads within the last 60 seconds |
| TipQueries.QueryAcceptedExactly | src/tips/tips.service.ts:164-264 | which filter options are accepted, as an if-and-only-if, and the sort column, sort order, offset and size they ask for |
| TipQueries.SelectionExactly | src/tips/tips.service.ts:191-253 | which rows an accepted request selects, as an if-and-only-if on the options |
| TipQueries.ListingExactly | src/tips/tips.service.ts:266-290 | what a listing answers, field by field, from the options alone: the rows at positions (page - 1) * limit to page * limit of those asked for, page, limit, total, the number of pages and both flags |
| TipQueries.WantedExactly | src/tips/tips.service.ts:378-391 | those rows are exactly the caller's rows that the options ask for |
| TipQueries.FilteredExactly | src/tips/tips.service.ts:378-391 | a listing holds exactly the caller's rows that match |
| TipQueries.PagesPartition | src/tips/tips.service.ts:366-400 | pages 1..totalPages one after another are all rows asked for, each once, in the order of the table; when the table comes in the sort order asked for, so do the pages |
| TipQueries.PageFlagsAreExact | src/tips/tips.service.ts:266-290 | `hasNextPage` says exactly that a row lies beyond the page; later pages are empty and earlier ones full |
| TipQueries.IndexIsRank | src/tips/tips.service.ts:155-162 | the index of a stored tip is the number of its creator's tips before it in (createdAt, id) order |
| TipQueries.IndexIsBijection | src/tips/tips.service.ts:155-162 | the index is a bijection between a creator's n tips and 0..n-1 |
| TipQueries.IndexIsStable | src/tips/tips.service.ts:155-162 | tips created strictly later never change a tip's index |
| Aggregates.GroupIsFilteredSum | src/profiles/profiles.service.ts:385-399 | the row of GROUP BY for a key is the count and sum of the rows with that key |
| Analytics.SummaryExactly | src/profiles/profiles.service.ts:363-381 | the summary counts and adds up exactly the completed tips to the wallet within the period and in the asset asked for |
| Analytics.ByAssetExactly | src/profiles/profiles.service.ts:385-399 | the breakdown has one row for each asset that occurs, with the number and sum of its tips, whatever asset was asked for |
| Analytics.TimeSeriesExactly | src/profiles/profiles.service.ts:403-424 | the time series has one row for each day and asset that occur, in the order of the days, with the number and sum of the tips of that day in that asset |
| Analytics.TopSupportersExactly | src/profiles/profiles.service.ts:428-451 | the top supporters are at most five different senders with a wallet, from the largest sum down, each with the number and sum of the tips from them; whoever is not listed gave no more than any of five who are |
| Analytics.TimeSeriesAddsUp | src/profiles/profiles.service.ts:403-424 | the time series has one row per day and asset, in the order of the days, and adds up to the summary |
| Analytics.ByAssetAddsUp | src/profiles/profiles.service.ts:385-399 | the breakdown by asset adds up to the summary without an asset filter |
| Analytics.AssetRowIsFilteredSummary | src/profiles/profiles.service.ts:363-399 | its row for an asset is the summary filtered by that asset |
| Analytics.TopSupportersBounded | src/profiles/profiles.service.ts:428-451 | the top supporters are exactly min(5, n) of the n supporters, the head of all of them sorted by amount, and together gave at most the summary total |
| Analytics.AverageIsRounded | src/profiles/profiles.service.ts:497-503 | the rounded average times the count is within count/2 units of the total, a half is rounded up, and it is 0 without tips |
| Analytics.LargestIsExact | src/profiles/profiles.service.ts:363-381 | the largest amount shown is that of a selected tip and none exceeds it |

## Left out

- Bytes.IntTextRoundTrip: numerals are an optional sign and decimal digits, which is all RESP2 servers send; other JavaScript number forms (hexadecimal, fractions, exponents, surrounding spaces) read as NaN here, and integers are exact beyond 2^53
- Resp.ParseAt: a bulk length below -1 moves the source's offset backwards, which can loop; the model stops there with a result of its own (`Backward`), and after a bulk length that is not a number the position is NaN as in the source
- Resp.SerializeRoundTrip: arguments are texts and whole numbers; values are compared as UTF-8 bytes, so decoding of invalid bytes and lone surrogates is not modelled
- RedisConnection.SessionAnswersExactly: one command outstanding at a time; with several, every listener appends the same chunk to the shared buffer
- RedisConnection.LagPersists: each reply arrives in one chunk; of a reply in several, what comes after the command has settled finds no listener and is lost, as `WireRuns.Serve` has it
- ThrottlerScript.RedisStore.Eval: ttl and blockDuration are positive and constant per key, hit counts stay below Redis's 64-bit limit, and Redis neither restarts nor evicts keys
- ThrottlerStorage.RedisThrottlerStorage.Increment: the text of the script is a parameter, and a number that is no integer is only NaN
- WireRuns.RunBound: one command at a time on each connection; a command still waiting after its chunks ends with the failure of its socket, and the next one continues with the same buffer on a new socket; a reply that is an error means that the script did not run; no AUTH or SELECT on a new socket
- TipTable.TipEventExactly: `Number(text)` for amounts in text form is a parameter, amounts keep all their digits (no rounding to decimal(20,7)), and upper-casing covers the characters that can produce ASCII letters
- TipTable.FindByIdExactly: a row's id is its position in the table, where the source has generated ids
- TipLedger.TipService.HandleContractWebhook: the signature check is a boolean, the event date arrives as a timestamp or as invalid, and `createdAt` is a column of `TipTable.Row`, which only the queries read
- WebhookLog.WebhookRunCrossUnique: webhook-only runs; a confirmation may overwrite the hash of a completed tip, which conservation still tolerates
- WebhookLog.RedeliveryHarmless: tip events; several withdrawals of one tip overwrite each other's hash, so a redelivered older withdrawal is applied again
- TipLedger.TipService.PersistWithdrawalEvent: ids are UUID columns in the source, so a `tipId` that is no UUID makes its query fail, where the model finds no tip and ignores the event; the table is unchanged either way
- WebhookInterleaving.SharesHashExactly: the two events may each be delivered any number of times, and no third event arrives after them
- WebhookInterleaving.AtMostOncePerHash: webhook handlers only, and the table of users does not change during the run
- RefreshTokens.SingleUse: requests are atomic; `RefreshInterleaving` says what remains of it when they overlap
- RefreshTokens.AuthService.CreateRefreshToken: token texts are random and unique, so a token is named by its row; a calendar day is 86400000 ms; access tokens, passwords and wallet signatures are not modelled
- VerificationCache.CachedResultsAreFresh: Horizon, the contract and the field comparison are a function of tip and time, given by the caller, so all lookups of one verification count as made when its result is computed; errors of the Redis client are not modelled
- TipQueries.PagesPartition: the database's order is a parameter, the same for every page; with ties in the sort column the source gives no such guarantee
- TipQueries.SelectionExactly: a date parameter is a timestamp or not a date, and an empty date text is treated as absent by the caller
- Analytics.TopSupportersExactly: the time of a supporter's last tip is not part of the model
- Analytics.AverageIsRounded: exact decimals instead of floating point; days are UTC days, the period is given by its start, and the asset filter is already in upper case
- Sockets, connecting, AUTH and SELECT, logging, controllers, migrations and the text sanitizer: plumbing or library code
