# BREERO: verified models of its stateful core

This project models, in Dafny, the parts of the BREERO platform whose correctness depends on whole
runs rather than on single calls, and proves what each of them promises.

| file | what it models |
|---|---|
| `Buckets.dfy` | the ideal token bucket of a rate limit: first on a clock that ticks once per earned token, then in seconds |
| `LocalBuckets.dfy` | the process-local fallback: the bounded dictionary with lazy expiry, bulk purge and a fail-closed cap |
| `RateLimiter.dfy` | the Redis script on its millisecond clock, and `enforce_rate_limit`, which falls back when Redis gives no answer |
| `ClockRounding.dfy` | which limits keep twice the quota in spite of the truncated Redis clock |
| `RetryAfter.dfy` | what Retry-After is worth: at the cap, from the script, and when a caller meets the other bucket next time |
| `SpacedClients.dfy` | clients that space their requests, whichever buckets they meet |
| `CrmSync.dfy` | the CRM's idempotent event consumer, its ledger and routed records, guarded user writes, and the sender's envelope |
| `CrmLaws.dfy` | what that consumer answers and records, said from the outside |
| `JsonText.dfy`, `JsonReader.dfy`, `PublicSubmissions.dfy`, `LexOrder.dfy`, `Characters.dfy` | `JSON.stringify` over UTF-16 code units, an independent reader of JSON, `canonicalize` and `stableSerialize` |
| `IntakeForm.dfy` | idempotency keys and consent timestamps across the attempts of the public intake form |
| `PrLedger.dfy` | the dependency graph of the pull-request ledger and the depth-first search for a cycle in it |
| `PolicyRegistry.dfy` | route shapes and the construction of the endpoint policy registry |
| `BookingExpiry.dfy` | booking expiry workers with `FOR UPDATE SKIP LOCKED` |
| `Headers.dfy` | resource versions in ETag headers, and the string the middleware adapter signs |

Code that updates state in place is a class or a method with loops, proved equal to a specification function on
values; the theorems about runs are lemmas about those functions. `dafny verify dfyconfig.toml` covers everything.

## Reading the results

**Rate limiter.** Tokens and times are real numbers, time does not run backwards, and each key has one fixed
limit of C requests per W seconds. That last point is a hypothesis about callers: one scope is declared with two different
limits (`apps/api/app/api/v1/booking_geography.py:56` and `apps/api/app/api/v1/public_booking.py:48`). The central fact
is `TokenBucket.AdmitsExactlyTheQuota`: a call is let through if and only if no interval thereby exceeds
C + length * C / W. The definition on the right never mentions tokens. The dictionary and the Redis script are shown to answer exactly as
this bucket in every run, whatever they evict.

**A bound that does not always hold.** During an outage a request may be served by either of two buckets, so one would
expect one process to let through at most 2 (C + (b - a) C / W) requests in [a, b]. Redis truncates its clock to milliseconds, so its
bucket may see an interval up to a millisecond longer than it is. `ClockRounding.DoublesExactly` shows that the bound holds, for
all runs and all intervals, if and only if C <= 500 W, that is, for limits of at most 500 requests per second;
`ClockRounding.FastLimitsExceedTwice` builds a run that breaks it for every faster limit. Between whole milliseconds
it holds for every limit.

**A promise that is not always kept.** Every refusal names a Retry-After of n seconds. A caller that returns then to the bucket that refused it
passes, provided that bucket serves it nothing meanwhile and did not refuse it at the cap of the fallback dictionary
(`apps/api/app/core/rate_limit.py:92-93`): this is `RetryAfter.SameBucketKeepsIt`. It may also meet the other bucket, and the cap does not
keep its word. `RetryAfter.RetryAfterExactly` covers all these cases. It speaks of continuations in which neither bucket serves the caller
before it returns, and says that the caller then passes in all of them if and only if the bucket it will meet has room for it already,
judged at the time of the refusal: the calls that bucket has let through so far leave room for one more in n seconds and, if it is the local
one, the caller's entry is still live then, since otherwise other identities can take the last place in the dictionary. When there is no
room, a continuation is constructed that refuses the caller although it makes no request in between.
`RetryAfter.OtherBucketRefuses` is an example.

**A partner that can change.** A partner found by email does not get the external id that the payload names
(`odoo-addons/breero_crm/models/breero_sync_event.py:107-109`), so a later event with that id and another email creates a second partner, to
which the first payload then resolves. `CrmSync.FoundPartnerIsKeptExactly` shows that a payload keeps the partner it has found for good if
and only if it names no id, or some partner already carries the id, or no event that could be accepted would take it.

**CRM consumer.** A call is one transaction: an exception leaves the store as it was. The theorems hold for every interleaving of
deliveries with users' guarded writes and their new cases.

**Canonical JSON.** Values are equal "as data" up to the order of properties and to undefined properties; values that JSON has
no notation for (undefined array items, NaN and the infinities) read as null, as `JSON.stringify` prints them. What is written is
checked against a reader that knows nothing of the printer: every serialized value reads back as the same data, and every request of the
intake form as the form's data with its consent timestamp.

**Booking expiry.** The statuses a worker selects do not include EXPIRED. A worker may find any set of rows held by transactions that
are no workers, and those may change any row no worker holds, also to EXPIRED; for the counting theorems they do not revive an expired
booking.

## Model

| member | source | states |
|---|---|---|
| TickBucket.TokensAreLeastSlack | apps/api/app/core/rate_limit.py:28-35 | the level a call finds, a history-dependent minimum, equals in closed form the least slack over all intervals that end now, and is never negative |
| TickBucket.QuotaHolds | apps/api/app/core/rate_limit.py:99-107 | with one token per tick, admitted calls in an interval never exceed capacity plus length |
| TokenBucket.InTicks | apps/api/app/core/rate_limit.py:76-103 | the bucket in seconds and the bucket in earned tokens hold the same level and admit the same calls |
| TokenBucket.AdmitsExactlyTheQuota | apps/api/app/core/rate_limit.py:99-109 | a call is let through if and only if the calls let through before it leave room for it in the quota of every interval |
| TokenBucket.PassedWithinQuota | apps/api/app/core/rate_limit.py:99-109 | the calls let through in [from, to] number at most C + (to - from) * C / W |
| TokenBucket.WaitIsExact | apps/api/app/core/rate_limit.py:108-109 | Retry-After is the least positive number of whole seconds in which a token is earned, and at most the window |
| TokenBucket.PollingIsFree | apps/api/app/core/rate_limit.py:100-109 | any number of refused calls leaves the level at every later time as if they had not been made |
| TokenBucket.SpacedClientsPass | apps/api/app/core/rate_limit.py:99-107 | a client whose calls are at least W / C apart is never refused |
| LocalBuckets.BucketTable.Purge | apps/api/app/core/rate_limit.py:78-81 | exactly the buckets that have expired go |
| LocalBuckets.BucketTable.Consume | apps/api/app/core/rate_limit.py:70-111 | the in-place dictionary code computes the specified table and verdict, purge, expiry and cap included |
| LocalBuckets.RunKeepsTrack | apps/api/app/core/rate_limit.py:70-111 | in every run the dictionary tracks the never-evicted bucket of every key: a stored bucket is that bucket, a missing one has refilled |
| LocalBuckets.IdleBucketIsFull | apps/api/app/core/rate_limit.py:94-103 | a bucket idle for two windows has refilled to its capacity |
| LocalBuckets.EvictionIsInvisible | apps/api/app/core/rate_limit.py:78-103 | every call not refused at the cap is told what a never-evicted bucket says, decision and Retry-After |
| LocalBuckets.AllowedArePassed | apps/api/app/core/rate_limit.py:70-111 | over a whole run the calls let through for a key are those the never-evicted bucket lets through |
| LocalBuckets.FallbackAdmitsExactly | apps/api/app/core/rate_limit.py:70-111 | in every run of the dictionary a call is let through if and only if it is not refused at the cap and every interval has room |
| LocalBuckets.FallbackKeepsTheQuota | apps/api/app/core/rate_limit.py:70-111 | in every run, with any keys, purges, expiries and cap refusals, the quota of every interval holds for each key |
| LocalBuckets.StepKeepsTheCap | apps/api/app/core/rate_limit.py:78-98 | one call keeps the dictionary within its maximum and never refuses a live identity at the cap |
| LocalBuckets.OnlyExpiredBucketsGo | apps/api/app/core/rate_limit.py:78-86 | what a call removes had expired, and no other identity's bucket changes |
| LocalBuckets.CapHolds | apps/api/app/core/rate_limit.py:78-98 | in every reachable state: size within the maximum, live identities never refused at the cap, refused ones told a whole window |
| LocalBuckets.PromiseIsBounded | apps/api/app/core/rate_limit.py:92-109 | in every run a caller refused by a bucket or at the cap is told between 1 and W seconds |
| LocalBuckets.PromiseIsKept | apps/api/app/core/rate_limit.py:99-111 | a caller whom a bucket, not the cap, refused and told n is let through n seconds later, whatever other identities do and however often it polls in between |
| LocalBuckets.PromiseIsTight | apps/api/app/core/rate_limit.py:99-111 | and that caller is still refused one second sooner |
| CapRefusals.CapRefusesExactly | apps/api/app/core/rate_limit.py:78-93 | a call is refused at the cap if and only if its own bucket is not live and as many others as the maximum are |
| CapRefusals.RefusedAgain | apps/api/app/core/rate_limit.py:88-93 | for every caller refused at the cap a continuation in which it is refused again when told to return: new identities take every free place |
| CapRefusals.PromiseHoldsExactly | apps/api/app/core/rate_limit.py:88-111 | the fallback keeps its Retry-After in every continuation if and only if the refusal was not at the cap |
| CapRefusals.CapPromiseFails | apps/api/app/core/rate_limit.py:88-93 | a dictionary of one, limit 1 in 2 s: "a" at 0.5 is told 2 and refused again at 2.5 |
| ScriptBuckets.RedisStore.Eval | apps/api/app/core/rate_limit.py:15-44 | the script's effect on the stored hash and its reply |
| ScriptBuckets.CeilTwice | apps/api/app/core/rate_limit.py:155-156 | rounding up to milliseconds and then to seconds rounds up once: ceil(ceil(1000 x) / 1000) = ceil(x) |
| ScriptBuckets.SameVerdict | apps/api/app/core/rate_limit.py:34-39 | the script's reply, read in seconds, is the verdict of the bucket in seconds |
| ScriptBuckets.ScriptIsTheBucket | apps/api/app/core/rate_limit.py:15-44 | in every run, whenever Redis drops lapsed keys, the script answers as the never-evicted bucket |
| ScriptBuckets.FallbackMatchesScript | apps/api/app/core/rate_limit.py:15-111 | script and fallback refine one bucket: after the same millisecond-aligned calls they give the same decision and the same Retry-After |
| ScriptBuckets.ScriptAdmitsExactly | apps/api/app/core/rate_limit.py:15-44 | in every run of the script, admission if and only if every interval of the millisecond clock has room |
| ScriptBuckets.ScriptKeepsTheQuota | apps/api/app/core/rate_limit.py:15-44 | on the script's clock the quota of every interval holds |
| ScriptPromises.ScriptPromiseIsKept | apps/api/app/core/rate_limit.py:15-44 | in every run of the script a caller told n is let through n seconds later, whatever other keys do, whatever lapsed keys Redis drops and however often it polls |
| ScriptPromises.ScriptPromiseIsTight | apps/api/app/core/rate_limit.py:15-44 | and it is still refused one second sooner |
| RateLimiter.Limiter.EnforceRateLimit | apps/api/app/core/rate_limit.py:122-161 | the error for a nonpositive limit, which bucket is spent from under each failure, and the decision |
| RateLimiter.PassesAreGranted | apps/api/app/core/rate_limit.py:132-161 | every request that passes in an interval was granted by the local bucket or by the shared one in that interval |
| RateLimiter.FailoverAtMostDoubles | apps/api/app/core/rate_limit.py:122-161 | under every pattern of failures, lost replies and other processes: at most the local quota plus the quota of the interval on Redis's clock |
| RateLimiter.FailoverAtMostDoublesTheQuota | apps/api/app/core/rate_limit.py:122-161 | between whole milliseconds, at most twice the quota |
| RateLimiter.PassesExactly | apps/api/app/core/rate_limit.py:130-161 | in every run a request passes if and only if the bucket it meets has room in every interval and, for the local one, it is not refused at the cap |
| RetryAfter.SameBucketKeepsIt | apps/api/app/core/rate_limit.py:114-161 | a caller told n passes n seconds later if it meets the bucket that refused it, was not refused at the cap, and that bucket serves it nothing in between, whatever the other bucket does |
| RetryAfter.RetryAfterExactly | apps/api/app/core/rate_limit.py:114-161 | a caller told n passes n seconds later in every continuation in which neither bucket serves it before, if and only if the bucket it will meet has room in n seconds by what it let through up to the refusal and, for the local bucket, its entry is live until then |
| RetryAfter.SameBucketExactly | apps/api/app/core/rate_limit.py:114-161 | for a caller that meets the same bucket again, that is the case if and only if it was not refused at the cap |
| RetryAfter.RefusedOnReturn | apps/api/app/core/rate_limit.py:88-161 | without such room, a continuation that refuses the caller on its return although it makes no request in between |
| RetryAfter.OtherBucketRefuses | apps/api/app/core/rate_limit.py:130-161 | a failing input, limit 1 in 10 s: told 1 by the shared bucket at 9.5, served nothing, and told 9 by the local bucket at 10.5 |
| SpacedClients.SpacedRequestsPass | apps/api/app/core/rate_limit.py:15-161 | in every run in which the requests for an identity are at least W / C apart, each passes whichever bucket it meets, truncated clock or not, unless refused at the cap |
| ClockRounding.SlowLimitsDouble | apps/api/app/core/rate_limit.py:17-18 | for limits of at most 500 per second, at most twice the quota in every interval of every run |
| ClockRounding.FastLimitsExceedTwice | apps/api/app/core/rate_limit.py:17-18 | for every faster limit, a run and an interval with more than twice the quota |
| ClockRounding.DoublesExactly | apps/api/app/core/rate_limit.py:122-161 | twice the quota bounds every run and interval if and only if C <= 500 W |
| CrmPayload.ForbiddenAtAnyDepth | odoo-addons/breero_crm/models/breero_sync_event.py:83-89 | the search says yes if and only if some path through the payload ends at a dictionary with a forbidden key |
| CrmSync.PartnerIsKept | odoo-addons/breero_crm/models/breero_sync_event.py:100-115 | once some partner carries the external id a payload names, the payload resolves to one and the same partner after every continuation of the run |
| CrmSync.NewcomerTakesTheId | odoo-addons/breero_crm/models/breero_sync_event.py:107-115 | while nobody carries the id, an accepted event naming it with an email that singles out no partner creates the partner every such payload then finds |
| CrmSync.EmailsStayDistinct | odoo-addons/breero_crm/models/breero_sync_event.py:106-114 | in every run no two partners share a nonempty email |
| CrmSync.EmailPartnerIsKept | odoo-addons/breero_crm/models/breero_sync_event.py:106-115 | a payload that names no id, or one that nobody carries or can take, finds the partner its email singles out after every continuation |
| CrmSync.FoundPartnerIsKeptExactly | odoo-addons/breero_crm/models/breero_sync_event.py:100-115 | a found partner is kept in every continuation if and only if the payload names no id, or a partner carries it, or no event that would be accepted now names it in that role with an email that singles out no partner |
| CrmSync.EmailMatchIsForgotten | odoo-addons/breero_crm/models/breero_sync_event.py:107-109 | the failing runs, from the empty store: a request without id creates partner 0, one with an id finds it by email, and one with that id and another email takes it away |
| CrmSync.RouteWorks | odoo-addons/breero_crm/models/breero_sync_event.py:117-175 | routing fails only on what is wrong with the envelope itself, never trips a uniqueness constraint, and changes or adds the one record it returns |
| CrmSync.DeliverEffect | odoo-addons/breero_crm/models/breero_sync_event.py:53-81 | a delivery changes the store only when accepted, and then adds one processed row and its routed record |
| CrmSync.AcceptsExactly | odoo-addons/breero_crm/models/breero_sync_event.py:53-81 | accepted if and only if screened, routable, and neither event id nor idempotency key nor version is in the ledger |
| CrmSync.EveryStoreIsGood | odoo-addons/breero_crm/models/breero_sync_event.py:42-81 | in every run: unique event ids, idempotency keys and versions; rows processed and pointing to existing records; one case or lead per reference |
| CrmSync.RedeliveryIsHarmless | odoo-addons/breero_crm/models/breero_sync_event.py:64-81 | deleting every repeated delivery from a run leaves ledger and records as they are |
| CrmSync.RedeliveryIsAcknowledged | odoo-addons/breero_crm/models/breero_sync_event.py:68-94 | redelivering an accepted event at any later point returns the original acknowledgement |
| CrmLaws.RedeliveryIsJudgedByDigest | odoo-addons/breero_crm/models/breero_sync_event.py:67-73 | at any later point an event with the id and idempotency key of an accepted one gets its acknowledgement if and only if the payload digests agree, and a payload conflict otherwise; the store stays as it is |
| CrmLaws.JudgedByTheLast | odoo-addons/breero_crm/models/breero_sync_event.py:68-73 | an event that shares only its id, or only its key, with accepted ones is judged by the last of them in the same way |
| CrmLaws.AnswersExactly | odoo-addons/breero_crm/models/breero_sync_event.py:53-81 | each answer, error or acknowledgement, and exactly when it is given, check by check; what is not accepted changes nothing |
| CrmLaws.ContactIsRecorded | odoo-addons/breero_crm/models/breero_sync_event.py:118-133 | an accepted contact request is acknowledged with the support case of its reference, which alone changes: each field and the team shown, stage, resolution and mirror kept |
| CrmLaws.DisputeIsRecorded | odoo-addons/breero_crm/models/breero_sync_event.py:134-147 | an accepted dispute event is acknowledged with the dispute case of its reference, which alone changes: each mirror field, the amount in major units and the currency shown |
| CrmLaws.LeadIsRecorded | odoo-addons/breero_crm/models/breero_sync_event.py:148-175 | every other accepted event is acknowledged with the lead of its reference, which alone changes, with record type and team by event type |
| CrmSync.RowsComeFromCleanEvents | odoo-addons/breero_crm/models/breero_sync_event.py:64-81 | every ledger row stems from an accepted delivery without a forbidden key at any depth |
| CrmSync.MirrorsChangeByDisputeOnly | odoo-addons/breero_crm/models/breero_crm_case.py:39-45 | no user write, new case or other event changes the dispute mirror of an existing case |
| CrmSync.MirrorsFollowTheLastDispute | odoo-addons/breero_crm/models/breero_sync_event.py:134-147 | in every interleaving the mirror fields of a case are those of the last accepted dispute event routed to it |
| CrmLaws.MirrorsShowTheLastDispute | odoo-addons/breero_crm/models/breero_sync_event.py:138-144 | field by field, what those mirror fields show |
| CrmLaws.WritesExactly | odoo-addons/breero_crm/models/breero_crm_case.py:37-45 | a write without the integration group that touches a mirror or the resolution changes nothing, nor does one that would duplicate a reference; any other makes exactly the changes it names |
| CrmLaws.CreatesExactly | odoo-addons/breero_crm/models/breero_crm_case.py:37-37 | a new case is stored as given unless there is one of its type about its reference |
| CrmLaws.ResolutionIsKept | odoo-addons/breero_crm/models/breero_crm_case.py:39-45 | no delivery, user write or new case changes the resolution of a case |
| CrmSync.ResendIsAcknowledged | apps/api/app/integrations/event_envelope.py:13-26 | an event sent again in an envelope built at a later time gets its first acknowledgement |
| CrmLaws.EnvelopeSays | apps/api/app/integrations/event_envelope.py:13-26 | each field of the envelope, with its default |
| CrmLaws.NamedPartnerIsFound | odoo-addons/breero_crm/models/breero_sync_event.py:102-105 | a payload that names an id resolves to the first partner that has it in that role |
| CrmLaws.SingledOutPartnerIsFound | odoo-addons/breero_crm/models/breero_sync_event.py:106-109 | otherwise to the only partner with its email |
| CrmLaws.OtherwiseItIsNew | odoo-addons/breero_crm/models/breero_sync_event.py:110-114 | otherwise to a new partner with that email, and that id in the one role only |
| CrmSync.CrmDatabase.TakePartner | odoo-addons/breero_crm/models/breero_sync_event.py:100-115 | finds or creates the partner, and changes nothing but partners |
| CrmSync.CrmDatabase.RouteEvent | odoo-addons/breero_crm/models/breero_sync_event.py:117-175 | search, then create or write, as specified; leaves the ledger alone |
| CrmSync.CrmDatabase.ProcessBreeroEvent | odoo-addons/breero_crm/models/breero_sync_event.py:52-81 | the whole transaction: new store and acknowledgement, or an error and the old store |
| CrmSync.CrmDatabase.Write | odoo-addons/breero_crm/models/breero_crm_case.py:37-45 | denied exactly when mirror or resolution fields are written without the integration group; otherwise the update under the uniqueness constraint |
| JsonText.ReadBack | apps/web/lib/public-submissions.ts:49-55 | a quoted string reads back to the string and to what follows it, with every escape and surrogate |
| JsonText.EscapesOnlyWhatItMust | apps/web/lib/public-submissions.ts:49-55 | quoting escapes quotes, backslashes, control characters and lone surrogates and nothing else, the five common ones and the two marks in short form |
| JsonText.UniquePrint | apps/web/lib/public-submissions.ts:49-55 | printing is uniquely readable: a text that starts with a printed value starts with no other |
| JsonText.PrintIsInjective | apps/web/lib/public-submissions.ts:49-55 | different JSON values print differently |
| JsonReader.ReadsPrint | apps/web/lib/public-submissions.ts:49-55 | an independent reader finds in a printed text the value that was printed and nothing more, whatever follows |
| KeyOrder.SortedIsUnique | apps/web/lib/public-submissions.ts:41-43 | properties in enumeration order are determined by which properties there are |
| KeyOrder.IndexKeysAreNumerals | apps/web/lib/public-submissions.ts:40-43 | the keys JavaScript lists first are the numerals below 2^32 - 1 |
| KeyOrder.KeysInOrder | apps/web/lib/public-submissions.ts:40-43 | those by their numbers, then the others unit by unit |
| PublicSubmissions.PutKeepsOrder | apps/web/lib/public-submissions.ts:40-43 | assigning properties in ascending order yields JavaScript's enumeration order, index keys first |
| PublicSubmissions.Canonicalize | apps/web/lib/public-submissions.ts:36-47 | the recursive loop computes the canonical form |
| PublicSubmissions.CanonicalObject | apps/web/lib/public-submissions.ts:38-45 | a canonical object is sorted and holds exactly the defined properties in canonical form |
| PublicSubmissions.CanonicalTwice | apps/web/lib/public-submissions.ts:36-47 | canonicalize is idempotent |
| PublicSubmissions.SerializesAlikeExactly | apps/web/lib/public-submissions.ts:36-55 | two values serialize to the same text if and only if they carry the same data |
| JsonReader.SerializedReadsBack | apps/web/lib/public-submissions.ts:36-55 | every value but undefined serializes, to a text that reads back as the same data with nothing left over |
| IntakeForm.SerializedExactly | apps/web/lib/public-submissions.ts:57-65 | two payloads count as the same attempt if and only if they carry the same data |
| IntakeForm.SameBody | apps/web/components/marketing/PublicIntakeForm.tsx:275-286 | same data and same timestamp give byte-identical bodies |
| IntakeForm.Form.SendAttempt | apps/web/components/marketing/PublicIntakeForm.tsx:271-287 | which attempt and timestamp are kept or replaced, and the request sent |
| IntakeForm.Form.Settle | apps/web/components/marketing/PublicIntakeForm.tsx:288-310 | acceptance closes the attempt, failure keeps it |
| IntakeForm.SentFromStart | apps/web/components/marketing/PublicIntakeForm.tsx:271-298 | every request carries key, timestamp and body of the send that opened its attempt |
| IntakeForm.RequestCarriesForm | apps/web/components/marketing/PublicIntakeForm.tsx:271-287 | in every run each request reads back as the form's data at that time, with `consent_timestamp` set to the time of the send that created its key |
| IntakeForm.OneKeyOneBody | apps/web/components/marketing/PublicIntakeForm.tsx:271-298 | in every run all requests with one Idempotency-Key carry byte-identical bodies |
| IntakeForm.KeyIsReusedExactly | apps/web/components/marketing/PublicIntakeForm.tsx:271-298 | a later request reuses the key if and only if nothing was accepted and no data changed in between |
| PrLedger.CycleSearch.Cycle | scripts/pr_consolidation/validate_ledger.py:180-189 | one search: restores `visiting`, reports only real cycles, and otherwise extends `visited` in dependency order; terminates |
| PrLedger.AnyRootHasCycle | scripts/pr_consolidation/validate_ledger.py:180-192 | for every finite graph and root order a cycle is reported if and only if there is a nonempty closed path; otherwise the order of entering `visited` is topological |
| PrLedger.PathGoesDown | scripts/pr_consolidation/validate_ledger.py:186-188 | along any path the position in that order strictly falls |
| PrLedger.OrderedGraphIsAcyclic | scripts/pr_consolidation/validate_ledger.py:186-192 | a graph with such an order has no closed path |
| PrLedger.DependencyErrors | scripts/pr_consolidation/validate_ledger.py:67-98 | the graph maps each number to the dependencies of the last row whose dependencies are all numbers of other original pull requests, the remaining rows are reported, and a cycle if and only if there is one |
| PrLedger.CyclesAreReal | scripts/pr_consolidation/validate_ledger.py:90-98 | a reported cycle runs through at least two different pull requests, all of them original |
| RouteShapes.TokensRead | apps/api/app/api/policy_registry.py:30-36 | the leftmost non-overlapping scan splits a path into literals and parameters and loses nothing |
| RouteShapes.ReadingIsUnique | apps/api/app/api/policy_registry.py:30-36 | a path has no other such reading |
| RouteShapes.ShapeIsIdempotent | apps/api/app/api/policy_registry.py:30-36 | the shape of a shape is itself |
| RouteShapes.ShapeIdentifiesExactly | apps/api/app/api/policy_registry.py:30-36 | two paths have one shape if and only if they differ in parameter names only |
| PolicyRegistry.SelectsTheOnlyOne | apps/api/app/api/policy_registry.py:1267-1272 | the match list is a single rule if and only if that rule has the method and matches the path and no other does |
| PolicyRegistry.MatchesCount | apps/api/app/api/policy_registry.py:1328-1337 | no match, one match and several say exactly that no rule, one rule and several cover the operation |
| PolicyRegistry.OperationsAre | apps/api/app/api/policy_registry.py:1323-1326 | the operations visited are those of mounted routes outside the documentation paths |
| PolicyRegistry.SortedWell | apps/api/app/api/policy_registry.py:1361-1361 | sorting keeps every policy and puts distinct identities in strict order |
| PolicyRegistry.Collect | apps/api/app/api/policy_registry.py:1318-1337 | the nested loops file every operation under its shape and as matched, unmatched or ambiguous |
| PolicyRegistry.DuplicatesAreClashes | apps/api/app/api/policy_registry.py:1339-1343 | a reported duplicate is a shape under which two different paths are mounted, and every such shape is reported |
| PolicyRegistry.BuildEndpointPolicies | apps/api/app/api/policy_registry.py:1275-1361 | succeeds if and only if exactly one rule covers each operation and no two share method and shape; the result is then, in path and method order without duplicates, one policy for each operation that says field by field what its rule and route say, with the write policies and the effect for writes only; otherwise the faults reported are the faults there are, at least one, or an operation is mounted twice under one path |
| BookingExpiry.BookingDatabase.SelectForUpdateSkipLocked | apps/api/app/workers/tasks.py:25-36 | selects and locks exactly the expirable rows that neither a worker nor another transaction holds |
| BookingExpiry.BookingDatabase.MarkAndCommit | apps/api/app/workers/tasks.py:37-40 | the loop and commit mark exactly the selected rows and return their number |
| BookingExpiry.BookingDatabase.ExpireBookingHolds | apps/api/app/workers/tasks.py:18-40 | one undisturbed run moves to EXPIRED, and counts, exactly the bookings in one of the three statuses whose time is at or before now and that nobody holds, and changes no other |
| BookingExpiry.BookingDatabase.Rollback | apps/api/app/workers/tasks.py:44-47 | a session closed without a commit releases its rows and changes no booking |
| BookingExpiry.SessionsAreDisjoint | apps/api/app/workers/tasks.py:33-33 | no two workers hold the same booking |
| BookingExpiry.EveryTableIsSound | apps/api/app/workers/tasks.py:25-39 | in every interleaving a locked row belongs to one session and still meets its WHERE clause |
| BookingExpiry.OnlyExpirableBookingsExpire | apps/api/app/workers/tasks.py:28-38 | a worker's step changes only bookings that were in one of the three statuses and due when the worker started, and only their status |
| BookingExpiry.CommitExpiresWhatWasDue | apps/api/app/workers/tasks.py:25-40 | in every interleaving a worker that commits has expired exactly the bookings that were due and unheld when it selected |
| BookingExpiry.CountsAddUp | apps/api/app/workers/tasks.py:37-40 | in every interleaving without revivals the returned counts sum to the number of bookings moved to EXPIRED, less those that other transactions moved |
| BookingExpiry.ExpiredAtMostOnce | apps/api/app/workers/tasks.py:18-40 | in every interleaving without revivals no booking is expired by two workers or twice |
| BookingExpiry.SecondRunFindsNothing | apps/api/app/workers/tasks.py:19-24 | after a commit a run at the same or an earlier time, whatever other workers hold, finds nothing but what the first had to skip |
| ETags.VersionRoundTrip | apps/api/app/api/v1/provider_catalog.py:28-52 | every printed version from 1 parses back, strong and weak, under both parsers |
| ETags.LaxExactly | apps/api/app/api/v1/booking_intents.py:64-74 | a header gives version n if and only if it spells n in digits with a value of at least 1, optional quotes, an optional W/ and spaces around these |
| ETags.ErrorsDiffer | apps/api/app/api/v1/booking_intents.py:58-73 | a missing header and a malformed one get different errors, in both parsers |
| ETags.StrictIsLaxWithoutZeros | apps/api/app/api/v1/booking_intents.py:57-74 | the strict parser accepts what the lax one accepts without a leading zero, and reads the same version |
| SigningString.JoinReadsBack | apps/api/app/integrations/middleware.py:82-84 | the lines of the joined text are the fields |
| SigningString.JoinIsInjective | apps/api/app/integrations/middleware.py:65-84 | joining fields without newlines is injective, whatever their number |
| SigningString.SignedExactly | apps/api/app/integrations/middleware.py:64-84 | a request is signed if and only if no field is empty or has a line break, and the eleven lines of the text are the version, the method, the path and the fields in order |
| SigningString.SigningIsUnambiguous | apps/api/app/integrations/middleware.py:78-84 | a signing string determines every field of the request that was signed |

## Left out

- Floating-point rounding and Redis number formatting: tokens are real numbers. A clock that runs backwards is outside the
  hypotheses of the run theorems; the one-call functions still model the `max(0, elapsed)` it meets.
- Redis losing data other than lapsed keys (a restart, an eviction policy, a failover to a stale replica).
- Bucket keys: the hash of scope and source address is an arbitrary string here.
- SHA-256, HMAC and UUIDs: the payload digest is an arbitrary function of the payload, signing stops at the string to be signed
  (its last field, the digest of `canonical_body`, is any text), and new idempotency keys are assumed not to repeat.
- LocalBuckets.PromiseIsTight: says nothing of callers refused at the cap, who may be let through as soon as a bucket expires.
- CrmSync.FoundPartnerIsKeptExactly: partners change by event routing only; a user who edits a partner's id or email is not modelled.
- CrmSync.RouteWorks: whether the ORM can convert an envelope's values to its columns is an arbitrary property of the envelope; conversion itself, searches for
  empty values, record rules, and lead columns that are only copied are not modelled.
- CrmSync.MirrorsFollowTheLastDispute: speaks of cases some dispute event was routed to; a user may create a case with mirror fields of
  their own, since only `write` is guarded. Deleting records and users' writes to leads and partners are not modelled.
- CrmSync.RedeliveryIsHarmless: a repeat is the same event by the same kind of caller; timestamps other than `occurred_at` are not stored.
- The order of ledger rows received at the same instant is taken to be the order of acceptance.
- Python's recursion limit on deeply nested payloads and long dependency chains.
- Numbers in JavaScript data are the texts JavaScript prints for them; dates, functions, symbols, BigInt and `toJSON` are left out.
- The intake form's guard against a second submission while one is running, address validation and rendering: its steps may interleave
  freely here, so the results hold with or without the guard.
- Regular expressions of policy rules: `re.fullmatch` is an arbitrary predicate. Only the parameter pattern of `_route_shape` is modelled, as a scanner.
- The other checks of the pull-request ledger (wording, URLs, digests, evidence), which look at one field each.
- ETag digits outside ASCII, which `isdigit` would accept, and If-Match values of more than 4300 digits, for which Python's `int` raises a ValueError.
- Routers, the outbox, hold, finance and matching services, the API client's retry loop, settings, migrations, geocoding, payments, telemetry and pages.
