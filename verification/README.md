# Delego backend: verified core

A Dafny model of the algorithms and state machines at the heart of the Delego backend, with
machine-checked proofs of what they guarantee over every input, every run or every interleaving.
`dafny verify dfyconfig.toml` checks everything.

| Dafny file | models |
|---|---|
| `CycleSearch.dfy` | circular-dependency search over Terraform modules |
| `SpendVelocity.dfy` | the sliding-window spend limiter and `guardSpend` |
| `LockPayload.dfy`, `FencedLock.dfy`, `LockFences.dfy` | owner locks with a fencing counter: payload text, Lua scripts, whole runs, told fences |
| `Redlock.dfy` | token locks, retries, the guarded checkout section |
| `DecimalMath.dfy`, `Currency.dfy` | exact decimal-string addition; stroop display and parsing |
| `SessionWindow.dfy` | conversation windowing of agent sessions |
| `NumericText.dfy`, `Sanitizer.dfy`, `CoercedValues.dfy`, `SchemaUnions.dfy` | schema-directed coercion and validation of tool arguments, what coerced values mean, unions |
| `TagCache.dfy` | cache-aside entries with tag indexes |
| `BatchLoading.dfy` | request batching with a promise cache |
| `Migrations.dfy` | the schema-migration runner, upward runs |
| `ClusterRouting.dfy` | replica and master routing with failover |
| `StallMonitor.dfy` | stalled-connection detection as a timed state machine |
| `Negotiation.dfy` | price negotiation with a merchant |
| `HtmlEscape.dfy`, `Luhn.dfy` | HTML escaping; the Luhn check |
| `Digits.dfy`, `Text.dfy` | digit strings and the JavaScript string operations the others share |

Objects that the source updates in place are classes (`Search`, `SpendVelocityGuard`, `LockKeys`,
`LockClient`, `SessionManager`, `TaggedCache`, `BatchLoader`, `TrackingTable`, `FailoverClient`,
`WebSocketStallMonitor`). Each of their methods is proved against a function of the old state, and the
results about whole runs are lemmas about those functions. Time, the network, the batch function, the
merchant and other clients are parameters, so the results hold for all of their behaviours.

## Where the code falls short of a stated promise

Each of these is proved: the condition under which the promise holds, and a failing input, either as a
lemma of its own or as any input outside an exact condition.

- Spend limits hold exactly for amount texts whose stored value is neither negative nor larger than the
  checked one. A text with a colon is checked as 0 but stored as its last colon-separated piece.
  (`LimitsAlwaysHold`, `UnsafeAmountBreaksLimits`, `ColonAmountBreaksLimits`)
- An owner that takes a free lock is told so and can give it back exactly when its name needs no JSON
  escape and has no percent sign, and the percent signs of the other fields are doubled. An owner with a
  quote, a backslash or a control character is not recognised as the owner of its own lock; `a%%` is
  stored as `a%`; with any other percent sign the script fails after it has counted the fence.
  (`OwnLockExact`, `OwnerTestExact`, `PercentOwners`)
- The scripts let an owner change the lock of another exactly when it spells the beginning of a payload.
  Every held lock has such a thief: for the owner `a` it is `a","acquiredAt`. Mutual exclusion holds in all
  runs in which no such owner releases or renews, in particular when all those owners need no JSON escape,
  and a thief breaks it against every plain holder.
  (`HarmlessExact`, `ImpostorExact`, `MutualExclusion`, `TheftBreaksExclusion`)
- Renewal stores the fence its caller passes. The fences callers are told stay in order if each renewal
  passes one from the largest told so far up to the next to be granted; any other renewal has a
  continuation without further renewals that puts them out of order.
  (`RenewalExact`, `CarefulRenewalsKeepOrder`, `RenewedFenceMayDrop`)
- A second sanitizing pass changes nothing as long as the members of each union keep apart, for instance
  by a literal field. A union of objects may not, because stripping fields can hand a value to an earlier
  member; for two flat objects the exact condition is proved.
  (`SettledSecondPass`, `FlatPairExact`, `StrippingUnionDisagrees`)
- The sanitizer's comments promise conversions only where they are provably exact. Decimals with digits
  below one stroop are rounded instead. (`ScalingExact`, `RoundedTextExample`)
- A cache write keeps all later tag invalidations complete exactly when it outlives the other live
  entries of its tags; one lifetime per tag is enough.
  (`PutKeepsInvalidationsComplete`, `TagInvalidationIsComplete`, `MixedLifetimesMiss`)
- The windowed conversation honours the token budget exactly when the system messages alone do. The
  comment that `totalTokensConsumed` starts the trimming is not what the code does: it re-estimates the
  stored messages on every append. (`BudgetHonoured`)
- Negative stroop amounts are displayed with the sign inside the fraction; the exact set that still reads
  back is proved. (`RoundTripExact`)
- The dependency search is documented to return the cycle; it returns the walk that leads into it,
  lead-in included, unless first choices lead from its first name back to that name.
  (`ReportIsCycleExactly`, `LeadInExample`)
- Against a merchant that keeps its counter, an open price gap never closes. (`GapHalves`)
- `extendRedlock` calls its argument additional time; the script sets the time left. It takes time away
  exactly when less is asked for than is left. (`ExtendShortensExactly`)
- The stall monitor counts a heartbeat as missed when it is sent, so a healthy connection is never reported
  exactly when the configured number of misses is at least two. (`HealthyExact`, `FirstPingStalls`)
- With `enableReadOnlyReplicas` off, reads are documented to go to masters; with `fallbackToMaster` also
  off every read fails instead. (`ClusterRouting.FailoverClient.Read`)

## Model

| member | source | states |
|---|---|---|
| CycleSearch.FindCircularDependency | packages/types/src/terraformModuleValidation.ts:61-90 | Terminates for every module list; returns nothing exactly when the dependency graph (last module of a name wins) has no closed walk; otherwise the walk that starts at the first listed module leading to a cycle, takes at each name the first dependency leading to a cycle, and stops at its first repeated name |
| CycleSearch.ReportUnique | packages/types/src/terraformModuleValidation.ts:61-90 | That description has at most one solution, so the result depends on the modules alone |
| CycleSearch.ReportIsCycleExactly | packages/types/src/terraformModuleValidation.ts:59-69 | The result is itself a cycle exactly when following first choices from the first listed module that leads to a cycle comes back to it |
| CycleSearch.OnCycleIsNotEnough | packages/types/src/terraformModuleValidation.ts:59-69 | That module may lie on a cycle of its own and the result still have a lead-in |
| CycleSearch.Search.Visit | packages/types/src/terraformModuleValidation.ts:66-83 | Visiting keeps the open names equal to the current path of distinct first choices and the finished names a topological order; a reported walk extends the path |
| CycleSearch.OrderedIsAcyclic | packages/types/src/terraformModuleValidation.ts:80-82 | A finishing order in which dependencies come first leaves no room for any cycle |
| CycleSearch.LassoHoldsCycle | packages/types/src/terraformModuleValidation.ts:67-69 | Cutting the lead-in off a reported walk leaves a real cycle |
| CycleSearch.ByNameLast | packages/types/src/terraformModuleValidation.ts:62-62 | The edges of a name are the dependencies of the last module with that name |
| CycleSearch.FinishedLeadsNowhere | packages/types/src/terraformModuleValidation.ts:70-82 | From a finished name no walk ever runs into itself |
| CycleSearch.LeadInExample | packages/types/src/terraformModuleValidation.ts:59-69 | For two concrete modules the search returns a walk with a lead-in, which is no cycle |
| SpendVelocity.SpendVelocityGuard.RecordSpend | agents/src/tools/spendVelocityGuard.ts:93-101 | Recording adds one uniquely named member at its time, prunes what is a day old and sets the expiry to two days from then |
| SpendVelocity.SpendVelocityGuard.ReadWindow | agents/src/tools/spendVelocityGuard.ts:110-134 | The loop over the pruned members computes the hour count and both volumes |
| SpendVelocity.SpendVelocityGuard.Check | agents/src/tools/spendVelocityGuard.ts:140-191 | Allowed exactly when the hour count is below the policy's number of transactions, the hour volume with the request within its hourly volume and the day volume with the request within its daily volume; the biometric flag exactly above a positive threshold |
| SpendVelocity.SpendVelocityGuard.GuardSpend | agents/src/tools/spendVelocityGuard.ts:221-239 | Records exactly the permitted spends |
| SpendVelocity.MemberReads | agents/src/tools/spendVelocityGuard.ts:95-95 | A stored member gives back its timestamp and the last piece of its amount |
| SpendVelocity.MemberInjective | agents/src/tools/spendVelocityGuard.ts:12-14 | The nonce alone keeps members of equal time and amount apart |
| SpendVelocity.RunMirrors | agents/src/tools/spendVelocityGuard.ts:93-134 | After every serialized run of any users the stored set is the end of the user's full spend log, and whatever is missing is at least a day old |
| SpendVelocity.CheckReadsFullLog | agents/src/tools/spendVelocityGuard.ts:110-134 | The totals a check reads from the pruned, expiring set equal those of the full log |
| SpendVelocity.LimitsAlwaysHold | agents/src/tools/spendVelocityGuard.ts:140-239 | At every instant of every run the last day's spend is within the policy's daily volume and the last hour's spend and count within its hourly ones, even when the record reads a later clock than the check |
| SpendVelocity.LimitsInNumbers | agents/src/tools/spendVelocityGuard.ts:140-239 | The same for limits that were written as numbers |
| SpendVelocity.TextMeans | agents/src/tools/spendVelocityGuard.ts:123-158 | Amounts and limits are read as integers, and any other text as zero |
| SpendVelocity.LogExtends | agents/src/tools/spendVelocityGuard.ts:221-239 | A call is recorded exactly when the hour count, the hour volume and the day volume of the full log leave room for it under the policy, so nothing is refused without cause |
| SpendVelocity.LogExtendsInNumbers | agents/src/tools/spendVelocityGuard.ts:221-239 | The same for limits and an amount written as numbers |
| SpendVelocity.CheckedEqualsRecorded | agents/src/tools/spendVelocityGuard.ts:123-151 | Checked and stored value of an amount agree exactly when it has no colon or its last piece is worth nothing |
| SpendVelocity.UnsafeAmountBreaksLimits | agents/src/tools/spendVelocityGuard.ts:123-151 | For every amount text outside the safe ones there is a run that breaks the daily limit |
| SpendVelocity.ColonAmountIsUnsafe | agents/src/tools/spendVelocityGuard.ts:95-151 | The text `0:5` is checked as 0 and stored as 5 |
| SpendVelocity.ColonAmountBreaksLimits | agents/src/tools/spendVelocityGuard.ts:123-151 | One call with that text breaks a limit of 0 |
| LockPayload.PrefixIsOwner | packages/cache/src/lock.ts:30-53 | For an owner without escaped characters the prefix test is owner equality, whatever payload is stored |
| LockPayload.OwnerTestExact | packages/cache/src/lock.ts:30-75 | On serialized payloads the prefix test is owner equality exactly for the owners that need no escape |
| LockPayload.OwnMatchExact | packages/cache/src/lock.ts:30-75 | A serialized payload passes the test of its own owner exactly when that owner needs no escape |
| LockPayload.ImpostorExact | packages/cache/src/lock.ts:30-75 | An owner passes the test on somebody else's payload exactly when it spells the beginning of a payload: it runs into an escape that its closing quote completes, or is the escaped text of an owner that needs escaping, or goes on behind an owner into the next fields |
| LockPayload.ThiefMatches | packages/cache/src/lock.ts:30-75 | For every payload there is such an owner |
| LockPayload.TemplateSplits | packages/cache/src/lock.ts:94-102 | The replacement turns the fence field, and nothing before it, into the format slot, whatever the texts |
| LockPayload.FormatTemplate | packages/cache/src/lock.ts:20-21 | Formatting the template fails exactly when some percent sign is not doubled; otherwise it gives the serialized payload with the fence filled in and doubled percent signs halved |
| LockPayload.HalvedKeeps | packages/cache/src/lock.ts:20-21 | Formatting keeps exactly the texts without a percent sign |
| LockPayload.CleanPrefixIsOwner | packages/cache/src/lock.ts:67-75 | A clean owner and a quote start an escaped owner's text only if the owners are equal |
| LockPayload.EscapedOwnerNeverMatches | packages/cache/src/lock.ts:35-36 | An owner that needs escaping never matches its own payload |
| LockPayload.UnescapeEscape | packages/cache/src/lock.ts:67-75 | Escaped text reads back as JSON: nothing is lost |
| LockPayload.SerializeExact | packages/cache/src/lock.ts:67-75 | The payload text of fields that need no escape, spelled out |
| FencedLock.LockKeys.RunAcquire | packages/cache/src/lock.ts:19-27 | One atomic step: count the fence, format the template or fail, take a free lock, otherwise report the stored payload |
| FencedLock.LockKeys.RunRelease | packages/cache/src/lock.ts:30-40 | Deletes exactly when the stored text passes the owner test |
| FencedLock.LockKeys.RunRenew | packages/cache/src/lock.ts:42-53 | Distinguishes missing, stolen and renewed, and replaces only a lease that passes the owner test |
| FencedLock.RepliesExact | packages/cache/src/lock.ts:30-53 | Which of deleted, missing, stolen, failed and renewed is answered, and that only the positive answers change the lock |
| FencedLock.RefinesExact | packages/cache/src/lock.ts:19-53 | A script takes the step and gives the reply of the lock with owner equality, from every state, exactly for changes by owners that need no escape and for acquires whose owner has no percent sign or that fail anyway |
| FencedLock.RunsRefine | packages/cache/src/lock.ts:19-53 | Every run of such operations, whatever the metadata, goes through the states and replies of the lock with owner equality |
| FencedLock.OwnLockExact | packages/cache/src/lock.ts:19-40 | On a free lock: the script fails, with the fence counted, exactly when some percent sign is not doubled; the caller is told it holds the lock exactly when its owner has none at all; and it can give the lock back exactly when, besides, the owner needs no escape |
| FencedLock.PercentOwners | packages/cache/src/lock.ts:19-53 | The owner `a%%` takes the lock as `a%`, is told it does not hold it, and can neither release nor renew it; `a%1` fails after counting the fence |
| FencedLock.ToldMeansHeld | packages/cache/src/lock.ts:104-146 | Whoever the scripts tell that it holds the lock does hold it, and, unless it is a renewing impostor, no other owner did just before |
| FencedLock.MutualExclusion | packages/cache/src/lock.ts:19-53 | In every run of the scripts with expiry in which no impostor releases or renews, two owners are told they hold the lock within one lease only if the first released or renewed it itself |
| FencedLock.CleanMutualExclusion | packages/cache/src/lock.ts:19-53 | The same when all owners that release or renew need no escape, whoever acquires |
| FencedLock.EveryLockHasAThief | packages/cache/src/lock.ts:30-53 | Whatever lock is held, some owner deletes it and renews it for itself |
| FencedLock.TheftBreaksExclusion | packages/cache/src/lock.ts:19-53 | Against every plain holder a run of three operations grants the lock to another plain owner within the lease, without any change by the holder |
| FencedLock.HarmlessExact | packages/cache/src/lock.ts:30-53 | Release and renew on every lock of another owner are refused and change nothing exactly for the owners that are no impostors; an owner that needs no escape is none |
| FencedLock.FencesIncrease | packages/cache/src/lock.ts:19-27 | Each fresh grant carries a fence above those of all earlier fresh grants, in every run of any owners |
| LockFences.CarefulRenewalsKeepOrder | packages/cache/src/lock.ts:19-53 | If every renewal that takes effect passes a fence from the largest told so far up to the next to be granted, the fences told by acquires never drop and grow at each fresh grant, in every run of any owners |
| LockFences.RenewalExact | packages/cache/src/lock.ts:42-53 | After any run of such renewals the next one is of that kind exactly when no continuation without further renewals puts the told fences out of order |
| LockFences.CarelessRenewalBreaksOrder | packages/cache/src/lock.ts:42-53 | After any run at all, a renewal of any other kind has a continuation without further renewals that puts the told fences out of order |
| LockFences.KeepingFenceIsCareful | packages/cache/src/lock.ts:126-141 | Clients that renew with the fence they hold see all fences in order |
| LockFences.RenewedFenceMayDrop | packages/cache/src/lock.ts:126-141 | A concrete renewal that makes a re-entrant acquire report a smaller fence |
| FencedLock.OwnerControls | packages/cache/src/lock.ts:19-53 | A free lock is granted to a plain owner with its own fields, for exactly its time to live and with a new fence; an owner that needs no escape can always release its own and renew it with new fields, time and fence |
| Redlock.LapsedTokenIsPowerless | packages/cache/src/redlock.ts:25-45 | A granted token whose lease has lapsed can neither delete nor extend any later lock |
| Redlock.MutualExclusion | packages/cache/src/redlock.ts:18-45 | Two tokens are told they hold the lock within one lease only if the first released or re-timed it |
| Redlock.HolderWasGranted | packages/cache/src/redlock.ts:18-23 | Only granted tokens ever hold the lock |
| Redlock.ExtendShortensExactly | packages/cache/src/redlock.ts:36-100 | Extending sets the time left: it always ends before the old end plus the time asked for, and before the old end itself exactly when less is asked for than is left |
| Redlock.LockClient.AcquireRedlock | packages/cache/src/redlock.ts:54-80 | At most one attempt more than the retries, whatever others do in between; a non-positive time to live is a Redis error; succeeds at the first attempt that finds the lock free and gives up only if none did |
| Redlock.LockClient.WithCartCheckoutLock | packages/cache/src/redlock.ts:102-131 | The section runs only under the lock, and the closing release removes the own lease or nothing |
| DecimalMath.AddExact | packages/utils/src/decimalMath.ts:24-37 | Succeeds exactly on two valid decimals, and the sum is exact as a real number and canonical; an error names the first operand that is no decimal |
| DecimalMath.ValidExact | packages/utils/src/decimalMath.ts:8-17 | Valid are exactly an optional minus, digits and optionally a dot with more digits, in white space |
| DecimalMath.ValueExact | packages/utils/src/decimalMath.ts:8-17 | A decimal text denotes its sign times its whole part and its fraction over the power of ten |
| DecimalMath.SumError | packages/utils/src/decimalMath.ts:40-46 | A failing sum names the first term that is no decimal |
| DecimalMath.CanonicalUnique | packages/utils/src/decimalMath.ts:19-23 | A number has at most one canonical string |
| DecimalMath.AddCommutes | packages/utils/src/decimalMath.ts:24-37 | Swapping the operands gives the identical string |
| DecimalMath.AddAssociates | packages/utils/src/decimalMath.ts:24-37 | Regrouping three terms gives the identical string |
| DecimalMath.Sum | packages/utils/src/decimalMath.ts:40-46 | The loop computes the left fold and stops at the first invalid term |
| DecimalMath.SumExact | packages/utils/src/decimalMath.ts:40-46 | A sum succeeds exactly on valid terms and is the canonical string of their real total |
| DecimalMath.SumPermutation | packages/utils/src/decimalMath.ts:40-46 | Every reordering of the terms gives the identical string or fails as well |
| DecimalMath.UnscaledCorrect | packages/utils/src/decimalMath.ts:48-59 | Printing a scaled integer gives the canonical string of its quotient |
| DecimalMath.SplitText | packages/utils/src/decimalMath.ts:8-17 | Splitting printed parts gives them back |
| Currency.DisplayRoundsDown | packages/utils/src/currency.ts:5-16 | Parsing a display with d of 7 decimals gives the amount less its remainder modulo 10^(7-d) |
| Currency.RoundTripExact | packages/utils/src/currency.ts:5-16 | At the default precision exactly the non-negative amounts, and the negative ones with a zero or six-digit fraction, read back |
| Currency.MoreDecimalsExact | packages/utils/src/currency.ts:5-9 | More than seven decimals show the same as seven exactly for non-negative amounts and for negative ones whose fraction has at most six digits |
| Currency.DisplayExact | packages/utils/src/currency.ts:5-10 | The default display is the whole units, a dot and the seven digits of the rest |
| Currency.ParseExact | packages/utils/src/currency.ts:12-16 | Digits with a fraction of at most seven digits denote units and stroops |
| SessionWindow.SessionManager.ApplyWindowingPolicy | agents/buyer-agent/src/session/manager.ts:158-184 | The shrinking loop leaves the system messages and the fitting end of the conversation |
| SessionWindow.SessionManager.AppendMessage | agents/buyer-agent/src/session/manager.ts:110-123 | Appends, trims, adds the consumed tokens and touches only this session; an unknown session is an error and changes nothing |
| SessionWindow.SessionManager.CreateSession | agents/buyer-agent/src/session/manager.ts:64-84 | A new session holds the system prompt if there is a non-empty one |
| SessionWindow.TrimOnce | agents/buyer-agent/src/session/manager.ts:110-184 | Trimming after each append equals trimming the full history once |
| SessionWindow.StoredIsLongestFit | agents/buyer-agent/src/session/manager.ts:110-184 | After any appends the session stores all system messages ever seen and the longest fitting suffix of all conversation messages, or none |
| SessionWindow.LongestFitUnique | agents/buyer-agent/src/session/manager.ts:162-178 | That description has exactly one solution |
| SessionWindow.BudgetHonoured | agents/buyer-agent/src/session/manager.ts:152-184 | The window is within the budget exactly when its system messages are |
| SessionWindow.TokensOfText | agents/buyer-agent/src/session/manager.ts:39-48 | A text costs a quarter of its length, rounded up |
| SessionWindow.TokensOfOne | agents/buyer-agent/src/session/manager.ts:39-48 | A message costs its text and four tokens |
| SessionWindow.PromptIsKept | agents/buyer-agent/src/session/manager.ts:64-184 | The system prompt is the first message of its session after any appends |
| Sanitizer.SanitizedIsStable | agents/src/tools/sanitization.ts:338-573 | By induction over the schema, what coercion and validation produced is accepted and unchanged by both |
| Sanitizer.SecondPassChangesNothing | agents/src/tools/registry.ts:258-344 | Sanitizing the validated arguments of an allowed call again is allowed and returns the same arguments |
| Sanitizer.ValidIsUnharmed | agents/src/tools/sanitization.ts:338-417 | Coercion never changes the outcome for a value the schema accepts as it is, stroop texts aside |
| SchemaUnions.UnionExact | agents/src/tools/sanitization.ts:402-412 | A union is sanitized idempotently exactly when its validation alone is idempotent |
| SchemaUnions.RigidUnionAgrees | agents/src/tools/sanitization.ts:402-412 | Unions without objects always meet that condition |
| SchemaUnions.ParseIdempotent | agents/src/tools/sanitization.ts:402-412 | By induction over the schema: validating a validated value again changes nothing, if in every union an earlier member only keeps or rejects what a later one lets through |
| SchemaUnions.ApartRejects | agents/src/tools/sanitization.ts:402-412 | Members of different kinds, without a common value, or with a shared, always present field that keeps apart, reject what the other lets through |
| SchemaUnions.SeparatedUnionAgrees | agents/src/tools/sanitization.ts:402-412 | A union of such members is validated idempotently, fill-ins included |
| SchemaUnions.TaggedObjectsSeparated | agents/src/tools/sanitization.ts:402-412 | Objects told apart by a literal field are such members, whatever their other fields |
| SchemaUnions.SettledSecondPass | agents/src/tools/registry.ts:258-344 | The second pass changes nothing for every tool schema whose unions keep their members apart and whose defaults are stable |
| SchemaUnions.FlatPairExact | agents/src/tools/sanitization.ts:402-412 | A union of two flat objects is sanitized idempotently exactly unless the earlier one may lack all fields of its own, one of which can be wrong, agrees with the later one on the shared fields, and does not know one of its fields |
| SchemaUnions.FlatUnionAgrees | agents/src/tools/sanitization.ts:402-412 | Any number of flat objects of which no two are of that form make an idempotent union |
| SchemaUnions.StrippingUnionDisagrees | agents/src/tools/sanitization.ts:402-412 | A concrete union of two objects that a second validation strips further |
| Sanitizer.ScalingExact | agents/src/tools/sanitization.ts:462-504 | Scaling a decimal is within half a stroop, and exact exactly when no digit lies below one stroop |
| Sanitizer.ScalingAccepted | agents/src/tools/sanitization.ts:462-504 | A decimal is converted exactly when conversion is on, the field is a stroop amount and the result a safe integer |
| CoercedValues.BooleanExact | agents/src/tools/sanitization.ts:546-563 | Booleans as they are, 0 and 1, and five words each for true and false in any case and in white space; everything else is an error |
| CoercedValues.NumberExact | agents/src/tools/sanitization.ts:419-454 | Numbers as they are, big integers by value, texts by the number they denote; a fraction in a whole-number field is an error outside stroop texts |
| CoercedValues.DecimalText | agents/src/tools/sanitization.ts:583-603 | A decimal text gives its decimal value |
| CoercedValues.BigIntExact | agents/src/tools/sanitization.ts:565-573 | Big integers as they are, safe whole numbers by value, and exactly the texts of an optional minus and digits in white space |
| CoercedValues.TextExact | agents/src/tools/sanitization.ts:514-542 | Texts as they are; numbers only in stroop fields |
| CoercedValues.UnitsBecomeStroops | agents/src/tools/sanitization.ts:462-542 | Units with a fraction, sent for a stroop amount, become the exact number of stroops |
| CoercedValues.StroopNameExact | agents/src/tools/sanitization.ts:606-609 | Stroop amounts are exactly the names that end in stroop or stroops, in any case |
| CoercedValues.FieldNameCounts | agents/src/tools/sanitization.ts:606-609 | Wherever an object is, its field is a stroop amount by its own name |
| CoercedValues.ItemsAreNoStroopFields | agents/src/tools/sanitization.ts:606-609 | Items of arrays never are |
| CoercedValues.NormalizeExact | agents/src/tools/sanitization.ts:283-316 | Blank text and null are no arguments, texts are read as JSON, objects taken as they are, everything else is refused |
| CoercedValues.EnvelopeUnwraps | agents/src/tools/sanitization.ts:307-313 | A small object with a text under an envelope key is replaced by what the first such text says |
| CoercedValues.ArrayExact | agents/src/tools/sanitization.ts:360-370 | Arrays are coerced item by item, and one error is an error |
| CoercedValues.UnionCoercion | agents/src/tools/sanitization.ts:402-412 | A value some member accepts is left alone, any other is coerced for the first member |
| CoercedValues.FieldsOfCall | agents/src/tools/sanitization.ts:144-194 | An allowed call field by field: what was sent is coerced and validated on its own, what is missing left out or filled in, and nothing else gets through |
| CoercedValues.BooleanField | agents/src/tools/sanitization.ts:144-194 | A tool sees true in a boolean field exactly for a value that says so |
| NumericText.DecimalLiteral | agents/src/tools/sanitization.ts:583-603 | A decimal literal denotes its whole part and its fraction over the power of ten |
| NumericText.ExponentShifts | agents/src/tools/sanitization.ts:583-603 | An exponent multiplies or divides by its power of ten |
| NumericText.GroupingIgnored | agents/src/tools/sanitization.ts:583-603 | Commas, underscores and white space inside a number are ignored |
| NumericText.CurrencyIgnored | agents/src/tools/sanitization.ts:583-603 | So is one currency sign in front |
| NumericText.SpaceIgnored | agents/src/tools/sanitization.ts:583-603 | And white space around it |
| Sanitizer.RoundedTextExample | agents/src/tools/sanitization.ts:419-504 | The text `6e-8`, six tenths of a stroop, becomes one stroop |
| Sanitizer.ScalarStable | agents/src/tools/sanitization.ts:419-573 | Scalar coercions leave their own accepted results alone |
| Sanitizer.MissingStable | agents/src/tools/sanitization.ts:395-397 | Filled-in defaults are stable |
| Sanitizer.ToolOutputIsNoEnvelope | agents/src/tools/sanitization.ts:283-316 | Validated arguments of a tool schema are never taken for a provider envelope |
| NumericText.PrintedIntegerIsIntegral | agents/src/tools/sanitization.ts:583-617 | A printed integer reads as itself and has no fractional part |
| TagCache.TaggedCache.SetCacheEntry | packages/cache/src/cacheAside.ts:81-107 | The loop leaves the entry and one refreshed index per tag |
| TagCache.TaggedCache.GetOrSet | packages/cache/src/cacheAside.ts:61-78 | A hit returns the stored value, leaves entries and indexes alone and counts the hit in process and for its key; a miss stores what was loaded and counts the miss |
| TagCache.TaggedCache.DeleteTag | packages/cache/src/cacheAside.ts:148-155 | Removes the live members of one tag and its index, keeps the namespaces apart, and returns how many live entries are gone |
| TagCache.TaggedCache.Invalidate | packages/cache/src/cacheAside.ts:124-157 | All three modes; for requests clear of the index namespace the number returned is the number of live entries that are gone |
| TagCache.InvalidatedExact | packages/cache/src/cacheAside.ts:130-145 | Exact requests remove the pattern or the listed keys, prefix requests the live keys that start with it, and every other key stays |
| TagCache.TagsRemoveMembers | packages/cache/src/cacheAside.ts:147-156 | Tag requests remove the indexes, and leave what stays unchanged |
| TagCache.PutPointwise | packages/cache/src/cacheAside.ts:81-107 | A write changes its entry and the indexes of its tags and nothing else |
| TagCache.CoveredExactly | packages/cache/src/cacheAside.ts:81-157 | The indexes cover every live entry of their tags for as long as it lives exactly when every later tag invalidation, after any delay, leaves no live entry with its tag |
| TagCache.PutKeepsInvalidationsComplete | packages/cache/src/cacheAside.ts:99-104 | A write keeps all later tag invalidations complete exactly when it outlives the other live entries of its tags |
| TagCache.PutKeepsCoverageExactly | packages/cache/src/cacheAside.ts:99-104 | The same for the coverage of the indexes |
| TagCache.RunCovered | packages/cache/src/cacheAside.ts:81-157 | With one lifetime per tag, after any run of writes, deletes, expiries and invalidations every live entry is in the live index of each of its tags |
| TagCache.TagInvalidationIsComplete | packages/cache/src/cacheAside.ts:147-156 | Whatever happened before, a tag invalidation leaves no live entry with the tag |
| TagCache.TagInvalidationIsPrecise | packages/cache/src/cacheAside.ts:147-156 | It spares every entry that was never written with the tag |
| TagCache.MixedLifetimesMiss | packages/cache/src/cacheAside.ts:99-104 | Two lifetimes under one tag let an invalidation miss a live entry |
| BatchLoading.BatchLoader.Load | packages/utils/src/batchLoader.ts:29-63 | Returns the cached promise, or makes one, queues its key and schedules a dispatch |
| BatchLoading.BatchLoader.RunDispatch | packages/utils/src/batchLoader.ts:65-72 | Hands over all pending keys at once and none when there are none |
| BatchLoading.BatchLoader.Settle | packages/utils/src/batchLoader.ts:74-93 | Settles every promise of the batch by position, or rejects all of them |
| BatchLoading.RunInv | packages/utils/src/batchLoader.ts:29-94 | In every interleaving each promise is in exactly one batch or pending, keys and resolvers are aligned, and a dispatch is scheduled exactly when keys are pending |
| BatchLoading.LoadReturnsOwnKey | packages/utils/src/batchLoader.ts:29-41 | A load always returns a promise made for its own key |
| BatchLoading.SettledWithOwnAnswer | packages/utils/src/batchLoader.ts:74-93 | Each promise settles at most once, from the place of its own key in a batch that was answered: with the item at that place, with the error thrown, or with the mismatch message when the number of results is wrong |
| BatchLoading.AnswerIsTaken | packages/utils/src/batchLoader.ts:74-93 | An answer to a dispatched batch is taken and settles all of its promises |
| BatchLoading.DispatchTakesAll | packages/utils/src/batchLoader.ts:65-72 | A dispatch leaves nothing pending and makes one batch of all pending keys, in the order they were loaded |
| BatchLoading.AnsweredPromisesSettle | packages/utils/src/batchLoader.ts:74-93 | Every promise of an answered batch has settled |
| BatchLoading.FetchedAtMostOnce | packages/utils/src/batchLoader.ts:29-41 | Without clears no key is handed to the batch function twice |
| Migrations.ValidateMigrations | scripts/setup/migrate.js:85-115 | Accepts exactly file lists with distinct names and distinct versions per group, and returns the same files, schema files first, each group by version; an error names a name or version that occurs twice |
| Migrations.OrderUnique | scripts/setup/migrate.js:75-83 | The order does not depend on how the files were listed |
| Migrations.ReconcileRows | scripts/setup/migrate.js:142-162 | The loop classifies every row as missing, drifted or applied; the pending files are those without a row |
| Migrations.ReconcileExact | scripts/setup/migrate.js:142-162 | Each of the four lists, file by file, in terms of names and checksums |
| Migrations.IntegrityExact | scripts/setup/migrate.js:142-190 | Reconciliation reports missing or drifted files exactly when a recorded file is gone from disk or was edited |
| Migrations.TrackingTable.ApplyMigration | scripts/setup/migrate.js:200-216 | A transaction commits one new row or leaves no trace |
| Migrations.TrackingTable.RunMigrate | scripts/setup/migrate.js:330-363 | Succeeds exactly on valid files of which every recorded one is on disk and unedited when no transaction fails; invalid, then lost, then edited files are refused without a change; a failure names its file and keeps the files before it |
| Migrations.TableIsPrefix | scripts/setup/migrate.js:330-363 | From an empty table any sequence of runs, each failing anywhere, leaves exactly a prefix of the order |
| Migrations.RunsCommitOrderedPrefix | scripts/setup/migrate.js:280-363 | The same for files listed in any order: a strictly ordered prefix, no file twice |
| Migrations.CompletedIsFinal | scripts/setup/migrate.js:330-363 | After a completed run nothing is pending and a rerun changes nothing |
| Migrations.RunOnlyAppends | scripts/setup/migrate.js:330-363 | Whatever files are on disk, rows are only appended and no name is recorded twice |
| ClusterRouting.FailoverClient.Refresh | packages/cache/src/clusterFailover.ts:94-99 | Splits the nodes by role and restarts both cursors |
| ClusterRouting.FailoverClient.NextReplica | packages/cache/src/clusterFailover.ts:148-157 | Finds an untried eligible replica, starting at the cursor, and none exactly when all eligible ones were tried |
| ClusterRouting.FailoverClient.NextMaster | packages/cache/src/clusterFailover.ts:137-141 | Only usable masters, none exactly when there is none |
| ClusterRouting.FailoverClient.Read | packages/cache/src/clusterFailover.ts:168-202 | Terminates, tries each replica id at most once, in rotation from the cursor, and is served by the first that succeeds; falls back to the master at the write cursor exactly when all replicas usable at that moment failed, fallback is on and some master is usable; moves exactly the counters of the pool that served |
| ClusterRouting.FailoverClient.Write | packages/cache/src/clusterFailover.ts:209-218 | Goes to a usable master or nowhere |
| ClusterRouting.FailoverClient.ServeRound | packages/cache/src/clusterFailover.ts:159-218 | While every read finds the same pool of n eligible replicas, any n consecutive reads that each succeed at the first try, with any writes in between, use each replica exactly once |
| ClusterRouting.RoundIsPermutation | packages/cache/src/clusterFailover.ts:148-157 | n consecutive cursor positions are a rotation of the pool, from any cursor |
| StallMonitor.WebSocketStallMonitor.DoStart | packages/utils/src/websocketMonitor.ts:120-128 | Arms the deadline and the heartbeat |
| StallMonitor.WebSocketStallMonitor.NoteActivity | packages/utils/src/websocketMonitor.ts:131-135 | Inbound traffic clears the misses and re-arms the deadline, unless stopped |
| StallMonitor.WebSocketStallMonitor.SendHeartbeat | packages/utils/src/websocketMonitor.ts:152-178 | A heartbeat counts itself as missed and stalls at the limit |
| StallMonitor.WebSocketStallMonitor.ReadDeadlineFires | packages/utils/src/websocketMonitor.ts:146-150 | The deadline declares the stall, unless stopped |
| StallMonitor.ReportedOnceForCause | packages/utils/src/websocketMonitor.ts:120-189 | In every legal run at most one stall is reported, only after exactly the read timeout of silence or at least the configured number of heartbeats since the last inbound traffic |
| StallMonitor.SilentAfterStop | packages/utils/src/websocketMonitor.ts:137-189 | Once stopped, nothing is ever reported again |
| StallMonitor.SilenceIsReportedInTime | packages/utils/src/websocketMonitor.ts:120-189 | No running monitor is silent beyond the read timeout or beyond the configured number of heartbeat intervals without having reported |
| StallMonitor.DeadlineIsUrgent | packages/utils/src/websocketMonitor.ts:146-150 | At the read timeout time cannot pass before the stall is reported |
| StallMonitor.RunLive | packages/utils/src/websocketMonitor.ts:120-178 | The miss counter always equals the heartbeats since the last inbound traffic, and the deadline its end |
| StallMonitor.BeatsAreRegular | packages/utils/src/websocketMonitor.ts:120-128 | Heartbeats are due at every full interval after the start, whatever traffic there is |
| StallMonitor.UnreportedExactly | packages/utils/src/websocketMonitor.ts:90-189 | A legal run without a stop reports nothing exactly when the read deadline never fires and the heartbeats without inbound traffic stay below the limit |
| StallMonitor.HealthyExact | packages/utils/src/websocketMonitor.ts:90-178 | A connection that answers every heartbeat before the next and is never silent for the read timeout is never reported exactly when the configured number of misses is at least two |
| StallMonitor.FirstPingStalls | packages/utils/src/websocketMonitor.ts:152-178 | With a smaller number the first ping stalls a connection with traffic at every instant |
| Negotiation.Negotiate | agents/buyer-agent/src/negotiation/A2ANegotiator.ts:242-362 | The loop ends within the rounds, one offer per round |
| Negotiation.StatusExact | agents/buyer-agent/src/negotiation/A2ANegotiator.ts:242-362 | The last reply decides the end: accepted at the price on the table, failed, rejected with its hopeless counter, thrown on a malformed one, or out of rounds |
| Negotiation.GoesOn | agents/buyer-agent/src/negotiation/A2ANegotiator.ts:208-240 | It goes on only past counters within the budget |
| Negotiation.CounterExact | agents/buyer-agent/src/negotiation/A2ANegotiator.ts:212-216 | No text is no counter, an integer text its amount, other characters are malformed |
| Negotiation.CounterOfferBetween | agents/buyer-agent/src/negotiation/A2ANegotiator.ts:208-240 | A next offer lies between the current one and the counter, moves unless they are at most one apart, and keeps the budget |
| Negotiation.PlayKeepsBudget | agents/buyer-agent/src/negotiation/A2ANegotiator.ts:242-362 | Against any merchant every offer is within budget and an accepted price is the last one sent |
| Negotiation.BudgetExact | agents/buyer-agent/src/negotiation/A2ANegotiator.ts:242-362 | No merchant can draw an offer over the budget exactly when the initial offer is within it |
| Negotiation.OffersApproach | agents/buyer-agent/src/negotiation/A2ANegotiator.ts:228-240 | Every offer of a whole negotiation lies between the one before and the counter it answers |
| Negotiation.GapHalves | agents/buyer-agent/src/negotiation/A2ANegotiator.ts:228-231 | After k counters of the same amount the gap is the initial gap over 2^k, rounded up, so an open gap stays open |
| Negotiation.StubbornGaps | agents/buyer-agent/src/negotiation/A2ANegotiator.ts:242-362 | The offers actually sent to a merchant that keeps its counter follow that law |
| HtmlEscape.EscapeIsOnePass | packages/utils/src/inputValidation.ts:58-65 | The five sequential replacements equal a one-pass escape of each character |
| HtmlEscape.Entities | packages/utils/src/inputValidation.ts:58-65 | The five entities |
| HtmlEscape.EscapedIsSafe | packages/utils/src/inputValidation.ts:58-65 | No angle bracket or quote survives |
| HtmlEscape.DecodeUndoesEscape | packages/utils/src/inputValidation.ts:58-65 | Decoding the five entities gives the original back |
| HtmlEscape.EscapeInjective | packages/utils/src/inputValidation.ts:58-65 | Different texts have different escapes |
| HtmlEscape.EscapeFixpoint | packages/utils/src/inputValidation.ts:58-65 | A text is unchanged exactly when it has none of the five characters, and only then is escaping twice escaping once |
| Luhn.PassesLuhn | packages/utils/src/piiMasking.ts:31-45 | The loop from the right decides the weighted sum modulo ten; empty and non-digit texts fail |
| Luhn.PassesIsFormula | packages/utils/src/piiMasking.ts:31-45 | That is the mod-10 formula of Annex B of ISO/IEC 7812-1 |
| Luhn.CheckDigits | packages/utils/src/piiMasking.ts:31-45 | Concrete passing and failing texts |
| Luhn.SingleErrorDetected | packages/utils/src/piiMasking.ts:31-45 | Changing any one digit of a passing string of any length makes it fail |
| Luhn.TranspositionExact | packages/utils/src/piiMasking.ts:31-45 | Swapping adjacent digits goes unnoticed exactly when they are equal or a 0 and a 9 |

## Left out

- Concurrent `guardSpend` calls: the limits rely on serialized calls, a clock that does not go back, and the Redis commands of one clock reading running at that instant.
- Ties in the sorted set: entries of equal score keep insertion order here; no total depends on it.
- `parseLockPayload`: the lock stores payload records, whose serialized text is the formatted template; metadata is its serialized text.
- `string.format` conversions other than `%d`: one before the fence takes its argument and one after it has none, so each fails like a lone percent sign.
- Lock, cache and session keys as texts (`workflowLockKey`, `lockKeyForResource`, session keys), lock inspection and scanning.
- FencedLock.MutualExclusion: without impostors is sufficient; a breaking run is proved for the thief of every plain holder, not for every impostor, since some only pass for owners that are never told they hold the lock.
- Hexadecimal, octal and binary BigInt texts.
- Lone surrogates: Dafny characters are Unicode scalar values, so text lengths count characters where JavaScript counts UTF-16 units.
- The sanitizer's error texts and their order: coercion is modelled on values, and any reported error makes the call rejected; `errors` and `out` are not updated in place.
- Zod transforms, nullable, records and tuples, NaN and infinite numbers, floating-point rounding, and the exponent form of integers from 10^21 on.
- SchemaUnions.SettledSecondPass: keeping apart is sufficient; the exact condition is proved for two flat objects, and for other unions only as idempotence of their validation.
- An object field that is present with the value `undefined` is the same as an absent one.
- Wildcards in prefix invalidations. The per-key hit counters are kept apart from the keyspace, so invalidations that reach their names do not remove them.
- Interleaving of the single Redis commands of one cache write or invalidation with those of another.
- `loadMany` and `clearAll` as methods; clearing everything is a step of the batching runs.
- Migration rollback, `--target`, `--dry-run`, the advisory lock, file discovery and the file-name tie-break of the comparison, which validated files never reach.
- Two reads in flight at once sharing the set of attempted replicas; `pingAll`.
- A second `start` on the same monitor, timers that fire late, reconnect backoff and the ledger replay position.
- Signatures, digests, HTTP and logging of the negotiator; offers carry numbers, counters are read from their text.
- Sending, queueing, sentinels, the CDC pipeline, the SDK, HTTP servers and authentication: they pass messages between services that are not part of this model.
- Cost analytics: random sample data and floating-point statistics. Configuration validators and pattern tables: lists of single independent tests.
