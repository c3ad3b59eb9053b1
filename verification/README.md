# Verified model of the service's stateful cores

The repository is a NestJS backend with scrapers and a React table. This project models the parts of it that
hold state over many calls, or compute something with an exact specification, and proves what they keep.

| file | what it models |
|---|---|
| `ServiceGraph.dfy` | the heap of request-scoped services, cyclic or shared, and the walk that marks them with one context |
| `EventPipeline.dfy` | method bodies under the `@Context` decorator: transaction, shared event buffer, flush |
| `SmsCodes.dfy` | login by SMS code: the record per phone, the service over its cache, sequential runs |
| `SmsCodesInterleaved.dfy` | the same requests with every cache access a step of its own and any number in flight |
| `Decimal.dfy`, `CacheServices.dfy` | the cache in memory and the Redis cache, with texts and numbers kept apart |
| `PasswordRecovery.dfy` | the recovery protocol on either cache, and its runs |
| `PropertyIngest.dfy` | loading scraped listings into the tables of properties and prices |
| `TableSort.dfy` | the decorated comparator, the stable sort and the pages of the table |
| `EvenRounding.dfy`, `PriceFormat.dfy` | rounding half to even in exact arithmetic, and printing in groups of three digits |
| `TagStripping.dfy` | the one-pass removal of tags |
| `Counting.dfy` | choosing elements of a sequence in order, with repeats; used to pin down filters |
| `ArrayDiff.dfy` | the diff of two arrays by key |
| `RolePermissions.dfy` | permissions of roles as rows that may repeat, and the permissions of a user |
| `PermissionGroups.dfy` | grouping a list of permissions into runs |
| `DeepTrim.dfy` | the in-place trimming of a JSON value |

Time, random codes, fresh ids, the SMS and e-mail providers, and lookups of users by phone are parameters of
the requests. Objects whose fields the source changes are classes; each of their methods is proved against a
function of the state (`Handle`, `Meaning`, `Load`, ...), and the lemmas are about that function.

## How the main results hang together

- **Context.** `SetupContext` marks exactly what can be reached over unmarked services, on any graph.
  `Invoke` is the decorator with all its branches; its contract speaks of `Meaning`, in which calls are
  simply run in place, so nesting is transparent. `InliningIsTransparent` says it of two outermost calls: a
  decorated method and its call-free form end alike and leave the same rows, log and cache. What `Meaning`
  holds is tied to the leaves that a run reaches (`MeaningIsOfLeaves`), position by position.
- **SMS codes.** `RecordTellsHistory` is the invariant over all runs: the record is a function of what has
  happened to the phone since the last stored code. `RecordCountsTries`, `LoginExactly` and `SendExactly` say
  the same of the requests alone: every end of a login and of a send has its exact condition. For interleaved requests an inductive invariant holds in general:
  whatever is cached or was read from the cache was stored by a request for that phone, after its SMS went
  out. `NonOverlappingRequestsAreSequential` brings the sequential results back for every phone whose
  requests do not overlap (each is started when all earlier ones for the phone are over), with any ids, any
  number of steps, and whatever is going on for other phones.
- **Recovery.** Both caches are proved to stand for the same entries (`Holds`), so all outcomes agree. Every
  end of an update has its exact condition, and a user's password is that of the last committed one. The
  checks of one id are bounded, namely by the configured limit, exactly if that is at least 1; the shipped
  value is 5.
- **Ingest.** A load maps stored rows by external id alone. `LoadContinuesExactly` gives the exact condition
  on a batch under which the tables go on standing for the price histories, and `RunKeepsHistoriesExactly`
  the one on a whole run. Batches of one source without repeated ids meet it (`EveryRunKeepsHistories`);
  `NewKeyTwiceBreaksKey` and `SharedIdLosesPrice` are inputs that do not.

## Model

| member | source | states |
|---|---|---|
| ServiceGraph.Service.SetupContext | src/common/base.service.ts:46-60 | ends on any graph; exactly the services on a path of unmarked services get the context, marked ones are untouched; the user is kept, or else the walk's first request user |
| ServiceGraph.Service.Follow | src/common/base.service.ts:55-57 | the step into one property marks exactly what it newly reaches, and continues the walk and the adoption of a user |
| ServiceGraph.WalkOn | src/common/base.service.ts:55-57 | one recursive call leaves the walk sound (only reachable services) and closed (every reference followed) |
| ServiceGraph.WalkEnds | src/common/base.service.ts:55-59 | a walk that is closed has reached all that is reachable, over any path |
| EventPipeline.Flush | src/common/base.service.ts:81-108 | the buffer is emptied first; one bad payload stops it with the log unchanged; otherwise the log grows by the rows of the buffer, except in test mode |
| EventPipeline.SizeCheckExact | src/common/base.service.ts:90-98 | a flush passes if and only if every payload is present and within the limit |
| EventPipeline.FirstStoppedDecides | src/common/base.service.ts:90-98 | the first event that does not pass decides which exception stops the flush |
| EventPipeline.LoggedOnceInOrder | src/common/base.service.ts:83-104 | the log rows are the events not marked pubSubOnly, each once, in emission order, with the id of the diff unless that is empty |
| EventPipeline.Run | src/common/context.ts:29-33 | a running body with nested decorated calls, throws and catches has the effect of its inlined meaning on the shared context, the rows and the cache |
| EventPipeline.CallWithContext | src/common/context.ts:29-33 | the context is spread to all reachable services, then the body runs there |
| EventPipeline.Transact | src/common/context.ts:35-46 | rows and log change together or not at all; cache writes stay either way |
| EventPipeline.FlushAndCommit | src/common/context.ts:35-46 | rows are committed only if the flush passes |
| EventPipeline.Invoke | src/common/context.ts:17-49 | a nested call is transparent; an outermost one shares one new context, commits and logs all or nothing, and without withTran never flushes |
| EventPipeline.InlinedMeansTheSame | src/common/context.ts:29-33 | a tree of calls means the same as its call-free form, on any service |
| EventPipeline.InliningIsTransparent | src/common/context.ts:17-49 | the decorator called on a body and on its call-free form ends with the same outcome, rows, log and cache, given the same starting user |
| EventPipeline.MeaningIsOfLeaves | src/common/context.ts:29-33 | all that a body does is done by the leaves it reaches: events, rows and cache operations in order, and the user and the end that are left |
| EventPipeline.EventsAreOfEmits | src/common/base.service.ts:62-79 | position by position, the events are those of the Emit leaves with their own data, the context's date and the user then in force |
| EventPipeline.RowsAreOfWrites | src/common/context.ts:35-42 | the rows are those of the Write leaves, each once and in order |
| EventPipeline.CacheOpsAreOfLeaves | src/common/context.ts:35-42 | the cache operations are those of the Cache leaves, each once and in order |
| EventPipeline.LastSetUserDecides | src/common/base.service.ts:63-63 | the user in force is the one set last, or the one at the start |
| EventPipeline.LastOpDecides | src/common/context.ts:35-42 | a key of the cache holds what the last operation on it says |
| EventPipeline.ThrowCutsOff | src/common/context.ts:35-46 | what stands before a throw is reached, what stands behind it is not, and a handler goes on from there |
| EventPipeline.OutermostCallKeepsLeaves | src/common/context.ts:17-46 | log and database grow by the Emit and Write leaves that were reached, if nothing is raised and the sizes fit, and else not at all |
| SmsCodes.AuthService.ValidateByPhone | src/auth/auth.service.ts:63-99 | the new cache and the outcome are those of `Handle`, on every branch |
| SmsCodes.AuthService.LoginByPhone | src/auth/auth.service.ts:101-129 | login succeeds only on a match; the cache change of a login that throws stays |
| SmsCodes.AuthService.LoginSendCode | src/auth/auth.service.ts:131-170 | the new cache and the outcome are those of `Handle`; a refused or failed SMS leaves the earlier record |
| SmsCodes.RecordTellsHistory | src/auth/auth.service.ts:63-170 | in every run the record exists if and only if the latest stored code has not been closed; it has that issue's code and times, and counts its comparisons |
| SmsCodes.RecordCountsTries | src/auth/auth.service.ts:63-170 | in every run the record is there exactly while all known logins since the issue were in time and wrong and at most three; it counts them |
| SmsCodes.LoginExactly | src/auth/auth.service.ts:63-99 | each end of a login if and only if its own condition on the earlier requests holds, a wrong code counted included |
| SmsCodes.SendExactly | src/auth/auth.service.ts:131-170 | each end of a send if and only if its own condition holds; the seconds to wait are those left, rounded down |
| SmsCodes.AttemptsAreBounded | src/auth/auth.service.ts:74-91 | in every run each stored code is compared at most three times and accepted at most once |
| SmsCodes.AcceptedExactly | src/auth/auth.service.ts:71-91 | a code is accepted if and only if it is the phone's latest, unexpired, open, with fewer than three wrong tries |
| SmsCodes.RefusedExactly | src/auth/auth.service.ts:136-146 | a send is refused if and only if the latest code is open and younger than a minute and the provider is in use; wrong tries do not move this |
| SmsCodes.ResendWindow | src/auth/auth.service.ts:136-146 | two codes stored less than a minute apart have a removal of the record between them |
| SmsCodes.AcceptedInTime | src/auth/auth.service.ts:74-86 | on a clock that never runs back, an accepted code was stored before and is at most five minutes old |
| SmsCodesInterleaved.StepKeepsInv | src/auth/auth.service.ts:63-99 | every single step keeps the invariant on cached and locally held records |
| SmsCodesInterleaved.AdvanceKeepsLocals | src/auth/auth.service.ts:63-164 | what a request holds after a step is genuine if what it held and found was |
| SmsCodesInterleaved.OnlyDeliveredCodes | src/auth/auth.service.ts:63-164 | under every interleaving, each record that is cached, or was read and is still held, has a request for that phone that sent it (SMS accepted or simulated) and is past its store; the same for each accepted code, unexpired when checked; counters stay at most 3 |
| SmsCodesInterleaved.PhonesAreIndependent | src/auth/auth.service.ts:68-69 | on one phone, an interleaved run does what that phone's requests do alone |
| SmsCodesInterleaved.UninterruptedIsHandle | src/auth/auth.service.ts:63-170 | the steps of an uninterrupted request add up to `Handle` |
| SmsCodesInterleaved.FinishedIsHandle | src/auth/auth.service.ts:63-170 | a request that is finished without interruption does what `Handle` says, from any cache |
| SmsCodesInterleaved.NonOverlappingRequestsAreSequential | src/auth/auth.service.ts:63-170 | if each request for a phone starts when the earlier ones for it are over, they are, in order of start, a sequential run: same ends, same record so far, at most the last still under way, whatever other phones do |
| CacheServices.MemoryCacheService.GetFields | src/cache/cache.service.ts:102-111 | one value per field, or an empty array for a missing key |
| CacheServices.MemoryCacheService.SetFields | src/cache/cache.service.ts:113-116 | the key holds the caller's own object, whatever it held |
| CacheServices.MemoryCacheService.IncrementFieldBy | src/cache/cache.service.ts:126-130 | the stored object's field becomes a number, by unary plus (an empty text is 0); a missing key is a TypeError |
| CacheServices.CacheService.GetFields | src/cache/cache.service.ts:65-67 | one value per field, null for all fields of a missing key |
| CacheServices.CacheService.SetFields | src/cache/cache.service.ts:69-71 | the fields are merged into the hash |
| CacheServices.CacheService.IncrementFieldBy | src/cache/cache.service.ts:81-83 | the field's text becomes that of the sum; a missing key counts as 0; a text that no integer is printed as is refused |
| Decimal.ReadBack | src/cache/cache.service.ts:81-83 | the text of a counter reads back as the counter |
| Decimal.ValueByPlace | src/cache/cache.service.ts:81-83 | texts are read by decimal place |
| Decimal.IntTextReadsBack | src/cache/cache.service.ts:81-83 | the text of any integer reads back as it |
| PasswordRecovery.MergedOnServer | src/cache/cache.service.ts:69-71 | merging a new entry over an old one is the same as replacing it |
| PasswordRecovery.UserService.Issue | src/user/user.service.ts:256-260 | a new entry is stored on either cache, in memory as an object shared by no other key |
| PasswordRecovery.UserService.IncrementAttempts | src/user/user.service.ts:239-239 | on a key that exists, either cache counts one more and throws nothing |
| PasswordRecovery.UserService.CheckRecoveryHashInner | src/user/user.service.ts:230-246 | on either cache the entry is counted or removed as `CheckEntry` says, and the increment never meets a missing key |
| PasswordRecovery.UserService.SendRecoverPasswordEmail | src/user/user.service.ts:253-272 | an id is stored for a known user, also when the mail then fails |
| PasswordRecovery.UserService.Create | src/user/user.service.ts:44-99 | the issuing part: an id is stored before the user, and stays when the rest fails |
| PasswordRecovery.UserService.UpdatePassword | src/user/user.service.ts:274-304 | the password changes only after a valid check and a sent mail; a throw undoes the user but not the check |
| PasswordRecovery.EntryTellsHistory | src/user/user.service.ts:230-304 | in every run the entry exists if and only if the latest id is open; it has that id and counts its tries |
| PasswordRecovery.AttemptsStayBelowLimit | src/user/user.service.ts:236-240 | with a limit of at least 1 the counter stays strictly below it |
| PasswordRecovery.ChecksBoundedExactly | src/user/user.service.ts:235-243 | the checks that one id meets are at most the limit in every run if the limit is at least 1; otherwise no bound holds at all |
| PasswordRecovery.ValidExactly | src/user/user.service.ts:230-251 | a check answers yes if and only if the id is the e-mail's latest and still open |
| PasswordRecovery.ChangedExactly | src/user/user.service.ts:274-304 | a password is changed if and only if the id is the latest and open, the user exists and the mail goes out |
| PasswordRecovery.UpdateExactly | src/user/user.service.ts:274-304 | each end of an update if and only if its own condition on the run before it holds |
| PasswordRecovery.IssuingExactly | src/user/user.service.ts:253-272 | each end of a request that issues ids if and only if its own condition holds |
| PasswordRecovery.UsersExactly | src/user/user.service.ts:288-293 | a committed change sets the password, a finished creation adds its user, and nothing else touches the users |
| PasswordRecovery.ValidUpdateSetsPassword | src/user/user.service.ts:274-304 | with the latest open id, for a user and with the mail sent, the password is set and the id is used up |
| PasswordRecovery.PasswordTellsHistory | src/user/user.service.ts:274-304 | in every run a user's password is that of the last committed change, or else as at the start |
| PasswordRecovery.AtMostOneChange | src/user/user.service.ts:274-304 | in every run each issued id changes at most one password |
| PasswordRecovery.PasswordsOnlyByChange | src/user/user.service.ts:288-293 | no other request changes a password |
| PasswordRecovery.ServeRun | src/user/user.service.ts:230-304 | on either cache a run has the outcomes, users and entries of the specification |
| PasswordRecovery.BothCachesAgree | src/cache/cache.service.ts:65-131 | over every run the cache in memory and the server give the same outcomes |
| PropertyIngest.ParserBaseService.LoadToDb | src/parser/parser.base.service.ts:156-190 | the new tables are `Load` of the old ones |
| PropertyIngest.LoadKeepsConsistent | src/parser/parser.base.service.ts:156-190 | on any batch ids stay unique, every price has its property, and the price rows grow by the size of the batch |
| PropertyIngest.LoadContinues | src/parser/parser.base.service.ts:164-189 | a clean batch continues each listing's history by exactly its scraped prices, in order |
| PropertyIngest.OnlyCleanContinues | src/parser/parser.base.service.ts:164-189 | a batch that is not clean breaks the key or some history |
| PropertyIngest.LoadContinuesExactly | src/parser/parser.base.service.ts:156-190 | the tables go on standing for the histories if and only if the batch is clean |
| PropertyIngest.EveryRunIsConsistent | src/parser/parser.base.service.ts:156-190 | on any batches ids stay unique, every price has its property, and there is one price row per scraped item |
| PropertyIngest.RunKeepsHistoriesExactly | src/parser/parser.base.service.ts:156-190 | the histories hold after every batch of a run if and only if each batch is clean for the keys stored before it |
| PropertyIngest.EveryRunKeepsHistories | src/parser/parser.base.service.ts:156-190 | after any batches of one source each and without repeats, keys are unique and each history is what was scraped |
| PropertyIngest.NewKeyTwiceBreaksKey | src/parser/parser.base.service.ts:169-178 | a new key twice in one batch gets two rows, which stand for no histories |
| PropertyIngest.SharedIdLosesPrice | src/parser/parser.base.service.ts:164-189 | with one external id stored from two sources, a batch of both adds both prices to the row stored last |
| TableSort.DecoratedIsTotal | web/src/components/Table/table-helpers.ts:1-34 | the decorated comparator is a strict total order in both directions |
| TableSort.SortIsUnique | web/src/components/Table/table-helpers.ts:28-34 | there is only one sorted arrangement |
| TableSort.StableSort | web/src/components/Table/table-helpers.ts:26-36 | the result is that of every correct sort |
| TableSort.SortExactly | web/src/components/Table/table-helpers.ts:26-36 | a sort is a rearrangement in the order's direction that keeps input order among equal cells, and conversely |
| TableSort.SortHasAllRows | web/src/components/Table/table-helpers.ts:35-35 | the sorted rows are the input's rows with their repeats |
| TableSort.DescendingIsReverse | web/src/components/Table/table-helpers.ts:13-23 | with distinct cells `desc` is the reverse of `asc` |
| TableSort.PagesCoverRows | web/src/components/Table/Table.tsx:52-56 | the pages put together are the sorted rows |
| TableSort.VisibleExactly | web/src/components/Table/Table.tsx:52-56 | a page shows its rows: a full page, the rest, or nothing |
| TableSort.PageIsFilledExactly | web/src/components/Table/Table.tsx:50-56 | after the first page, visible and empty rows fill a page if and only if it does not lie beyond the rows |
| TableSort.EmptyRowsExactly | web/src/components/Table/Table.tsx:50-50 | none on the first page, what is missing to a full page, and beyond the rows all that is missing since the end |
| EvenRounding.ToFixed8Exactly | src/helpers/common.helper.ts:55-55 | the nearest number of eight decimals, ties away from zero |
| EvenRounding.RoundUnitsExactly | web/src/utils/formatPrice.ts:5-9 | the result is the nearest integer, the even one on a tie, for negative numbers too, and no other |
| EvenRounding.Pow10IsPower | src/helpers/common.helper.ts:53-54 | the factor is the power of ten, also for negative exponents |
| EvenRounding.KeepsDecimals | src/helpers/common.helper.ts:52-62 | the result times 10^d is an integer, the shifted input's eight-decimal value rounded half to even |
| EvenRounding.Monotone | src/helpers/common.helper.ts:52-62 | a larger input never gives a smaller result |
| EvenRounding.Odd | src/helpers/common.helper.ts:52-62 | negating the input negates the result |
| EvenRounding.Idempotent | src/helpers/common.helper.ts:52-62 | rounding a result again changes nothing |
| EvenRounding.ErrorBound | src/helpers/common.helper.ts:52-62 | the result is within (0.5 + 0.5e-8) / 10^d of the input |
| EvenRounding.NearestToInputExactly | src/helpers/common.helper.ts:55-60 | the result is nearest to the exact input if and only if the eight decimals do not turn it into a tie it lies beyond |
| EvenRounding.NearestIsMissed | src/helpers/common.helper.ts:55-60 | 0.5000000001 is rounded to 0 although 1 is nearer |
| PriceFormat.LookaheadExactly | web/src/utils/formatPrice.ts:18-18 | the lookahead matches if and only if the digits that follow are a positive multiple of three |
| PriceFormat.SpacedIsInThrees | web/src/utils/formatPrice.ts:18-18 | the inserted spaces cut the digits into threes from the right |
| PriceFormat.EveryFourthIsSpace | web/src/utils/formatPrice.ts:18-18 | all groups but the first have three digits, the first one to three |
| PriceFormat.RoundedHasNoFraction | web/src/utils/formatPrice.ts:17-19 | the text of the rounded number has no part behind a point, so nothing is printed for one |
| PriceFormat.ChunkReadsBack | web/src/utils/formatPrice.ts:13-21 | below 1e21, the output is the sign and the threes of the rounded number, and no fraction; deleting the spaces and reading gives the rounded number back |
| TagStripping.MatchExactly | src/helpers/common.helper.ts:34-34 | the scan finds the one match that starts at a position, if there is one |
| TagStripping.OutputIsHarmless | src/helpers/common.helper.ts:34-34 | every '<' left has a '>' right behind it or none at all behind it |
| TagStripping.NoTagIsLeft | src/helpers/common.helper.ts:34-34 | one pass leaves nothing that the expression matches |
| TagStripping.UnchangedExactly | src/helpers/common.helper.ts:34-34 | a text is unchanged if and only if it has no tag |
| TagStripping.Idempotent | src/helpers/common.helper.ts:34-34 | a second pass changes nothing |
| TagStripping.OnlyTagsAreDropped | src/helpers/common.helper.ts:34-34 | the output is the input at exactly the positions that lie in no match of the expression, in order |
| ArrayDiff.DiffOfArrays | src/util/array.ts:1-22 | the two lists are the keys missing on the other side |
| ArrayDiff.DiffIsChosen | src/util/array.ts:1-22 | each list is exactly the keys absent from the other side, in order and with repeats |
| ArrayDiff.MissingKeepsRepeats | src/util/array.ts:4-19 | a missing key occurs as often as in its array, and no other key does |
| ArrayDiff.MissingKeepsOrder | src/util/array.ts:4-19 | the order of the array is kept |
| ArrayDiff.DiffTurnsOldIntoNew | src/util/array.ts:1-22 | deleting the first list and adding the second turns the old keys into the new ones |
| ArrayDiff.NothingToDoExactly | src/util/array.ts:1-22 | both lists are empty if and only if the sets of keys are equal |
| ArrayDiff.DiffIsUndoneBySwap | src/util/array.ts:1-22 | exchanging the arguments exchanges the results and undoes the change |
| RolePermissions.PermissionService.UpdateRolePermission | src/permission/permission.service.ts:117-148 | rows are added one per id, or all copies deleted; every exception leaves the rows as they were |
| RolePermissions.OutcomeExactly | src/permission/permission.service.ts:117-148 | a call takes effect if and only if its role exists, the context has a user and an enabling one lists known ids; each exception has its own cause and none before it |
| RolePermissions.CopiesAfterCall | src/permission/permission.service.ts:130-137 | a disabling call takes all copies of the listed rows, an enabling one adds one for each listing, every other row is as before |
| RolePermissions.AfterCall | src/permission/permission.service.ts:130-137 | a call decides about exactly its role and ids, by its enabled flag, however often rows repeat |
| RolePermissions.PermissionService.UpdateAll | src/permission/permission.service.ts:130-137 | after any run a grant exists if and only if the last deciding call says so |
| RolePermissions.User.AfterFind | src/user/entities/user.entity.ts:97-101 | the user's permissions are the union over the roles, empty without roles; it throws if and only if some role was fetched without permissions |
| RolePermissions.PermissionsAfterCalls | src/user/entities/user.entity.ts:97-101 | a user's effective permissions are those the set-level replay grants to the user's roles |
| PermissionGroups.PermissionsByGroups | src/permission/permission.service.ts:74-109 | the loop computes `Grouped` |
| PermissionGroups.MappedIsChosen | src/permission/permission.service.ts:74-86 | the mapped permissions are all those whose code has a group, each time they occur, in order |
| PermissionGroups.GroupingKeepsPermissions | src/permission/permission.service.ts:74-109 | every mapped permission is kept once and in order; no group is empty, neighbours differ |
| PermissionGroups.GroupingIsUnique | src/permission/permission.service.ts:87-100 | no other well-formed grouping has these permissions |
| PermissionGroups.GroupCodesDistinctExactly | src/permission/permission.service.ts:87-100 | group codes are distinct if and only if the mapped permissions of each group stand together |
| PermissionGroups.SortedInputGivesDistinctCodes | src/permission/permission.service.ts:54-56 | an input sorted by mapped group gives distinct codes |
| DeepTrim.TrimDeep | src/common/base.model.ts:4-20 | ends on every acyclic value, sharing allowed; exactly the nodes below it have their texts trimmed once, though arrays are gone through twice |
| DeepTrim.TrimExactly | src/common/base.model.ts:14-17 | trimming leaves exactly what is between the spaces at both ends; no other text is that |
| DeepTrim.TrimmedTwice | src/common/base.model.ts:6-13 | trimming the same nodes again, or others after them, trims them all and no more |
| DeepTrim.TrimmedSpellsTrimTree | src/common/base.model.ts:4-20 | trimming the nodes below a value trims every text of its tree and keeps its shape |
| DeepTrim.TrimTreesAt | src/common/base.model.ts:6-13 | the children of a trimmed node are its children trimmed one by one |
| DeepTrim.TrimDeepTrimsTree | src/common/base.model.ts:4-25 | in place, the value comes to spell out its trimmed tree |
| DeepTrim.TrimTreeIsIdempotent | src/common/base.model.ts:4-20 | trimming again changes nothing |

## Left out

- EventPipeline.Invoke: a later outermost call on services that already hold a context is covered only as the nested case; that its transaction is already finished is not modelled.
- EventPipeline.Run: a body is the tree of what one run does; return values, parallel awaits within a request and the ids of events are not modelled, and neither is a failing insert into the log.
- SmsCodesInterleaved.OnlyDeliveredCodes: does not bound comparisons or acceptances of one code, because get and set are separate steps; the bounds are proved for requests that do not overlap.
- PropertyIngest.Load: the map is a map by external id, without the names that every JavaScript object inherits; of several stored rows the last one in table order is taken.
- PropertyIngest.ParserBaseService.LoadToDb: a failure between the two inserts, which run in no transaction, is not modelled.
- PasswordRecovery.UserService.Create: only its cache entry, its checks and the new user's row by e-mail are modelled.
- TableSort.StableSort: requires a column whose values are totally ordered; cells that are missing or of mixed types are not compared.
- PriceFormat.ChunkNumberByClass: the conversion of the text to a number is a parameter, and so is what JavaScript prints behind the point of a number that is not an integer; rounded numbers of 1e21 and more, which are printed with an exponent, are excluded.
- CacheServices.MemoryCacheService.IncrementFieldBy: what unary plus makes of a text that is neither empty nor a decimal integer is left open (`Unread`); the protocol stores no such text.
- CacheServices.CacheService.IncrementFieldBy: counters are unbounded integers, so the server's 64-bit overflow, like the loss of precision above 2^53 in memory, does not occur.
- RolePermissions.User.AfterFind: a role whose permissions are null or undefined is one case.
- EvenRounding.EvenRound: reals instead of IEEE doubles; both copies of the function in the repository have this one body, and differ only in how a missing second argument becomes 0.
- DeepTrim.TrimDeep: cyclic values, on which the source does not end, and getters or frozen objects.
- The JSON text of cached SMS records; records are kept as values.
- `get`, `set`, time to live and expiration of the two caches, and Redis errors on keys of another type.
- Login by password, tokens and their storage: a token either comes about or not.
- `updateRolePermission`: the permissions it returns and the event it emits.
- SQL, knex, Redis networking, JWT, password hashing, uuid, file storage, HTTP scraping and the parsers of single sites.
- Controllers, resolvers, modules, DTOs, exceptions, e-mail templates, migrations, seeds and React components other than the slices of the table.
- `checkIsValid`, `convertToUsd`, `normalizeLocation`, `parsePropertyTypeFromTitle`, `generateArray`, `formatString` and the parse helpers: short branch logic.
