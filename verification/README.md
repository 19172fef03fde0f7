# RMQTT Things: a verified model

A Dafny model of the parts of the RMQTT Things IoT backend whose correctness is not visible from
any single function: state machines that webhooks, admin calls and background tasks drive
concurrently, the text and number codecs those machines rely on, and three maintenance scripts.
`dafny verify dfyconfig.toml` checks the whole project (Dafny 4.11).

## How the model is organised

| files | what they model |
|---|---|
| `Text`, `Identifiers`, `Json` | splitting, decimal numbers, identifiers, topics, JSON values |
| `Delivery`, `DeliveryTheorems`, `PublicationOrder` | the offline command queue as atomic steps, and what holds over every run |
| `Replies`, `CommandStore` | device replies; the tables and drains as a class proved against the steps |
| `SchemaCache`, `SchemaService` | the schema cache against the template table |
| `Topics`, `Acl` | filter matching, the subscription gate, access control |
| `Shadow` | merge patches, delta, convergence |
| `AlarmLifecycle`, `WebhookRetry`, `AlarmRules`, `RuleEngine`, `RuleRace` | alarms |
| `DeviceAuth`, `UploadDirs`, `Semver`, `Series` | password, upload directories, packed versions, downsampling |
| `DocGraph`, `LinkRewrite`, `LinkFiles`, `BatchRun` | the maintenance scripts |

A machine's step is one statement that the database executes atomically, one broker outcome, or one
cache operation; a run is any sequence of steps, so every interleaving of any number of calls is a
run. Code that updates state in place is a class or a method with loops, proved against the
functions that the theorems speak about. A `string` is the UTF-8 bytes of a text, one `char` for
each byte. Integers are unbounded except where width matters: i64 ids (`Text.ParseI64`), i64
wrap-around in the password window, u32 and i32 version segments. The clock, the broker's answers,
HMAC-SHA1 and the set of files on disk are parameters.

## Where the code and its comments disagree

The model follows the code.

- The comments of the create handlers (backend/src/api/admin_handlers.rs:641 and
  backend/src/api/admin_handlers.rs:897) say that a command whose publication fails stays queued and
  is sent again later. The drains flip it from Sent to Failed (backend/src/api/utils.rs:56-63,
  backend/src/api/utils.rs:142-157). `DeliveryTheorems.UndeliveredForever` proves that such a row is
  never delivered, by any later drain.
- A comment of `create_service_command` (backend/src/api/admin_handlers.rs:970) takes a drain that
  returns Ok for a publication. `CommandStore.CommandTables.CreateServiceCommand` states when the
  status in the response is the stored one, for a handler that runs alone and meets no database
  fault; among other calls the answer Sent says no more than `DeliveryTheorems.EmptyClaimDecides`.
- The comment of `invalidate_product` (backend/src/rule_engine/cache.rs:450) says that a rule change
  clears the duration and throttle entries of the product's rules. `RuleCache` derives Clone over a
  plain map, evaluations run on clones (backend/src/api/handlers.rs:158), and only clones are ever
  filled, so the shared map is empty and nothing is cleared: `RuleEngine.EngineRemembers`.
- The comment of the link script about code blocks (scripts/fix-relative-paths.py:70) promises to
  skip them; the code skips only the fence lines, and so does `LinkFiles.FixFile`.

## Properties that turned out false, with their exact conditions

| expectation | when it holds | members |
|---|---|---|
| rows of a device are published in creation order | for claims always, an insert being one step; for publications, whatever the schedule, iff no two drains of the device hold rows at once | `DeliveryTheorems.ClaimOrder`, `PublicationOrder.SafeExactlyWhenSole`, `PublicationOrder.OrderKeptIff`, `PublicationOrder.OverlapReorders` |
| a quiescent cache agrees with the table | until the next write, iff it agrees now and every populate on its way carries the schema in force; after an invalidation, iff those populates do | `SchemaCache.StaysAgreedIff`, `SchemaCache.InvalidationRestoresIff`, `SchemaCache.LatePopulateHappens`, `SchemaCache.BlindWriteHappens` |
| the property subscription stands for all service types | iff a subscription that passes the test leaves its service-type level open, or the list names every service type | `Topics.PropertyGateSuffices`, `Topics.ClosedListMisses` |
| the ACL is closed under matching | iff neither name is a wildcard | `Acl.ClosedExactlyWhen` |
| a Set-Desired converges | in every delivery order, iff no outstanding command gives a desired property another value; in queue order, which holds while no two drains of the device hold rows (`PublicationOrder.SafeExactlyWhenSole`), iff none overtakes a property that already has its value | `Shadow.ConvergesInEveryOrderIff`, `Shadow.ConvergesExactlyWhen`, `Shadow.OlderDeltaOvertakes`, `Shadow.NewerDeltaFirst` |
| retries end within as many ticks as the budget | the tick period is the retry interval, but a retry is scheduled after the attempt, so it misses the next tick: n periodic ticks are enough iff the budget is positive and n is at least twice the budget less one; iff it is between 1 and n when every query waits an interval after the last write | `WebhookRetry.PeriodicSettledExactlyWhen`, `WebhookRetry.SettledExactlyWhen` |
| alarms of a rule on a device are a throttle window apart | when the later one's test follows the earlier one's mark; whatever the schedule, iff no evaluation that passed a throttle test has another one beside it | `RuleRace.SpacedWhenTestFollows`, `RuleRace.SafeExactlyWhenAlone`, `RuleRace.OverlapRaisesTwice` |
| a change of a rule drops the memory of the product's rules | never | `RuleEngine.RuleChangeDropsNothing` |
| an alarm with a duration needs the condition without interruption | on every report that meets the rule while it asks for a duration; one that meets it without a duration interrupts nothing | `RuleEngine.SteadyStretch`, `RuleEngine.InterruptionMissed` |
| an interrupted batch can be continued | iff every file is found, and where a backslash is a name character none in a directory is | `BatchRun.InterruptedRunContinues`, `BatchRun.FoundExactlyWhen` |
| the window test rejects far timestamps | all but the one that wraps around | `DeviceAuth.ToleranceExact` |
| the order of placeholder substitution does not matter | iff no identifier completes a placeholder | `UploadDirs.OrderAgreesExactlyWhen`, `UploadDirs.OrderCanMatter` |
| rewriting keeps a link's target in every file | iff every `..` precedes every name and no doubled slash leads | `LinkRewrite.KeptExactlyWhen`, `LinkRewrite.LateUpBreaks`, `LinkRewrite.DoubleSlashBreaks` |
| restoring a batch is idempotent | iff the next file is not among the completed ones | `BatchRun.RestoreIdempotentWhen`, `BatchRun.RepeatedFileBlocks` |

## Model

| member | source | states |
|---|---|---|
| `Delivery.NextInv` | backend/src/db/database.rs:250-300 | every atomic step keeps the ledger of every row (status is what the history says, claimed at most once, in flight with one drain or ended exactly once) and makes at most one lifecycle move |
| `DeliveryTheorems.ReachableInv` | backend/src/api/utils.rs:22-163 | the ledger holds in every state of every interleaving of creates, drains, deletes and replies |
| `DeliveryTheorems.Lifecycle` | backend/src/db/database.rs:207-300 | over any stretch of any run a row keeps its identity and moves only along Pending, Sent, then Success or Failed, or Pending, Deleted |
| `DeliveryTheorems.FinalStays` | backend/src/db/database.rs:207-245 | a Success, Failed or Deleted row never changes again |
| `DeliveryTheorems.OneFate` | backend/src/api/admin_handlers.rs:600-656 | each created row has exactly one fate: waiting, cancelled, in transit, delivered, undelivered or dropped by an aborted drain; so a Deleted row was never published |
| `DeliveryTheorems.Conservation` | backend/src/db/database.rs:742-782 | no row is claimed twice, and claims balance the row in flight and the closing events |
| `DeliveryTheorems.UndeliveredForever` | backend/src/api/utils.rs:56-63 | a row whose publication failed or was dropped is never delivered by any later step |
| `DeliveryTheorems.FirstSettlementWins` | backend/src/api/handlers.rs:560-614 | a row is Success exactly when the first settlement after its claim is a reply with a code from 200 to 299, Failed exactly when it is another reply or the drain's failure update |
| `DeliveryTheorems.SettledMeans` | backend/src/api/handlers.rs:560-614 | the status read off the history means exactly that settlement, whatever other replies are in it |
| `DeliveryTheorems.ClaimOrder` | backend/src/db/database.rs:267-300 | rows of a device are claimed in id order, over any number of overlapping drains, an insert assigning its id and becoming visible in one step |
| `DeliveryTheorems.DeletedForGood` | backend/src/db/database.rs:696-716 | in every interleaving a Pending row that a delete names is Deleted from then on and is never published |
| `DeliveryTheorems.DeleteMeans` | backend/src/db/database.rs:872-887 | exactly the named Pending rows become Deleted, all others are unchanged |
| `DeliveryTheorems.EmptyClaimDecides` | backend/src/api/admin_handlers.rs:944-973 | once a drain found nothing left to claim, every row that existed is no longer Pending, in every interleaving |
| `PublicationOrder.PublishOrder` | backend/src/api/utils.rs:22-72 | rows of a device are published in id order when no two of its drains hold rows at once, whatever other devices' drains do |
| `PublicationOrder.OrderKeptIff` | backend/src/api/utils.rs:22-163 | from every reachable state, all schedules of the claimed rows' publications keep a device's order iff at most one of its drains holds rows, the order held so far, and what is held comes after what was published |
| `PublicationOrder.SafeExactlyWhenSole` | backend/src/api/utils.rs:22-163 | along a run no point lets the scheduler break the order iff at no point two drains of the device hold rows |
| `PublicationOrder.OverlapReorders` | backend/src/api/utils.rs:112-163 | two overlapping action drains can publish the older row last |
| `Identifiers.ServiceTopicParts` | backend/src/api/utils.rs:169-229 | both extractors recover the product and the service type of every service topic |
| `Identifiers.LeadingSlashIgnored` | backend/src/api/utils.rs:169-229 | leading slashes do not matter to the extractors |
| `Text.ParseForms` | backend/src/api/handlers.rs:541-547 | what a signed or zero-padded number means to `parse`, and what is refused |
| `Replies.ReplyRoundTrip` | backend/src/api/utils.rs:79-85 | building and parsing the correlation id is the identity on every i64 of both tables |
| `Replies.OnlyOwnReplySettles` | backend/src/api/handlers.rs:501-614 | a message changes a row only with that table's prefix, that id, device, product (and service type for actions), and only while it is Sent |
| `Replies.FirstAnswerIsFinal` | backend/src/api/handlers.rs:501-614 | the first answer of the right device makes a Sent row Success for a code from 200 to 299 and Failed otherwise, and nothing later changes it |
| `CommandStore.FindEarliest` | backend/src/db/database.rs:752-780 | the row that ORDER BY created_time, id LIMIT 1 selects |
| `CommandStore.SortClaimed` | backend/src/db/database.rs:267-300 | the claimed rows in the unique (created_time, id) order |
| `CommandStore.PublishCommand` | backend/src/rmqtt_client.rs:68-112 | success iff one of the allowed attempts is accepted, and no attempt after it |
| `CommandStore.CommandTables.Insert` | backend/src/db/database.rs:671-692 | refines the Create step and returns the key of the new Pending row |
| `CommandStore.CommandTables.DeleteCommands` | backend/src/db/database.rs:696-716 | the Delete step: exactly the named Pending rows become Deleted, no other row changes |
| `CommandStore.CommandTables.UpdateSentStatus` | backend/src/db/database.rs:207-230 | the Reply step: the row of that id, identity and status Sent becomes Success for a code from 200 to 299 and Failed otherwise, no other row changes |
| `CommandStore.CommandTables.ServiceSetReply` | backend/src/api/handlers.rs:501-614 | accepts or refuses a message and applies exactly the step it asks for |
| `CommandStore.CommandTables.ClaimAll` | backend/src/db/database.rs:267-300 | claims exactly the Pending rows of the device, in publication order |
| `CommandStore.CommandTables.ClaimNextAction` | backend/src/db/database.rs:752-780 | claims the earliest Pending row, or nothing when there is none |
| `CommandStore.CommandTables.FlipToFailed` | backend/src/db/database.rs:250-265 | refines the guarded Sent to Failed update |
| `CommandStore.CommandTables.SendPropertyCommands` | backend/src/api/utils.rs:22-72 | a drain is a run of the machine; each row that was Pending ends Sent or Failed by its own outcome, every other row is untouched |
| `CommandStore.CommandTables.SendActionInvocations` | backend/src/api/utils.rs:100-167 | the same for the one-at-a-time drain, which ends with no Pending row of the device |
| `CommandStore.CommandTables.CreateServiceCommand` | backend/src/api/admin_handlers.rs:908-1001 | run alone and without database faults: the stored status of the new row, and when the response tells it |
| `SchemaCache.CacheKeyInjective` | backend/src/api/handlers.rs:841-888 | cache keys of different subjects never collide when product ids hold no colon |
| `SchemaCache.ApplyLocal` | backend/src/db/database.rs:1194-1320 | a template write keeps one Active template per subject and changes the schema of no other subject |
| `SchemaCache.ApplyInForce` | backend/src/db/database.rs:1194-1247 | activation puts the named schema in force, any other write to the Active template leaves its subject without one, other writes change nothing in force |
| `SchemaCache.ApplyRows` | backend/src/db/database.rs:1194-1320 | the named row gets the status or schema or goes; another row changes only when the activation of a template of its subject demotes it |
| `SchemaCache.EditThenActivate` | backend/src/db/database.rs:1249-1320 | a schema edit is what a later activation puts in force |
| `SchemaCache.WriteInForce` | backend/src/db/database.rs:1194-1320 | in every run an executed write changes rows and the schema in force so |
| `SchemaCache.Reachable` | backend/src/api/handlers.rs:72-121 | over every run of lookups, detached populates and admin writes the cache entry of a subject is accounted for by the log |
| `SchemaCache.StaleOnlyIf` | backend/src/api/admin_handlers.rs:372-411 | a quiescent stale entry is due to a populate that read before a write and landed after its invalidation, or to a blind write |
| `SchemaCache.StaysAgreedIff` | backend/src/api/handlers.rs:72-121 | in every reachable state: until the next template write cache and table agree, whatever lookups, landings and invalidations come, iff they agree now and every populate on its way carries the schema in force |
| `SchemaCache.InvalidationRestoresIff` | backend/src/api/admin_handlers.rs:380-411 | an invalidation restores agreement until the next write iff no populate on its way carries another schema |
| `SchemaCache.LatePopulateHappens` | backend/src/api/handlers.rs:100-110 | a run from the empty table that ends quiescent and stale through a late populate, without a blind write |
| `SchemaCache.BlindWriteHappens` | backend/src/api/admin_handlers.rs:372-411 | a run from the empty table that ends quiescent and stale through a blind write, without a late populate |
| `SchemaCache.BlindActivationStays` | backend/src/api/admin_handlers.rs:372-411 | in every such state a blind activation of another schema leaves a stale entry with no invalidation to come |
| `SchemaCache.SelectActive` | backend/src/db/database.rs:1323-1345 | returns the schema of the one Active template of the subject |
| `SchemaService.SchemaService.LookupSchema` | backend/src/api/handlers.rs:72-121 | run sequentially, a lookup through the cache returns what the table holds, and keeps cache and table in agreement |
| `SchemaService.SchemaService.WriteTemplate` | backend/src/api/admin_handlers.rs:357-575 | run sequentially, a write is refused exactly for a missing template or the schema of an Active one, changes exactly those rows and the schema in force, and keeps cache and table in agreement |
| `Topics.ValidFilterMeans` | backend/src/rmqtt_client.rs:229-243 | for filters with `#` only as last level the definition is sections 4.7.1.2 and 4.7.1.3 of MQTT Version 3.1.1 |
| `Topics.MqttTopicMatches` | backend/src/rmqtt_client.rs:229-243 | the two-iterator loop decides the level-by-level definition on every filter and topic |
| `Topics.ShortcutIsRedundant` | backend/src/rmqtt_client.rs:229-232 | the equality test decides nothing |
| `Topics.IsSubscribedToServiceAction` | backend/src/rmqtt_client.rs:184-200 | true iff some subscription covers the set topic |
| `Topics.AutoSubscriptionCovers` | backend/src/rmqtt_client.rs:184-200 | `+/{client}/thing/service/+/set` opens the gate of every valid product and service type |
| `Topics.PropertyGateSuffices` | backend/src/api/handlers.rs:681-692 | for every list of subscriptions the gate of every service type is open iff one that passes the property test leaves its service-type level open or the list names every service type |
| `Topics.ClosedListMisses` | backend/src/api/handlers.rs:681-692 | a list of fewer than 32 subscriptions whose passing ones are all closed misses some service type |
| `Acl.AllowsExactlyWhen` | backend/src/api/auth_handlers.rs:580-621 | allowed are exactly the topics, with or without one leading slash, that begin with the device's two names and one of six families |
| `Acl.ClosedUnderMatching` | backend/src/api/auth_handlers.rs:580-621 | whatever an allowed filter matches is allowed, with or without leading slash |
| `Acl.ClosedExactlyWhen` | backend/src/api/auth_handlers.rs:580-621 | closure holds iff neither name is itself a wildcard |
| `Acl.AllowedTopicsDisjoint` | backend/src/api/auth_handlers.rs:580-621 | no topic is allowed for two different (username, client) pairs |
| `Acl.ServiceTopicsAllowed` | backend/src/api/auth_handlers.rs:580-621 | a service topic is allowed for exactly its own product and device |
| `Shadow.MergeDesired` | backend/src/db/database.rs:1477-1491 | the loop computes the top-level merge patch of section 2 of RFC 7396 |
| `Shadow.MergeCompose` | backend/src/db/database.rs:1477-1491 | two patches in turn act as their composition |
| `Shadow.PatchHistory` | backend/src/db/database.rs:1403-1475 | any history of patches acts as one patch, and the stored document never holds a top-level null |
| `Shadow.ComputeDelta` | backend/src/api/shadow.rs:31-51 | the loop collects exactly the entries that differ from the reported values |
| `Shadow.DeltaIsLeast` | backend/src/api/shadow.rs:31-51 | reporting an update empties the delta iff it reports every entry of the delta and nothing that diverges; the delta is the least such update |
| `Shadow.ConvergesInEveryOrderIff` | backend/src/api/admin_handlers.rs:670-785 | the outstanding commands and the new delta make the device converge in whatever order they are delivered iff none of them gives a desired property another value |
| `Shadow.ConvergesExactlyWhen` | backend/src/api/admin_handlers.rs:670-785 | delivered in queue order they converge iff no outstanding command moves a property away from its desired value |
| `Shadow.NewerDeltaFirst` | backend/src/api/admin_handlers.rs:716-730 | a newer delta delivered before an older one leaves a delta although queue order would not |
| `Shadow.ConvergesWhenNothingOutstanding` | backend/src/api/admin_handlers.rs:670-785 | with nothing outstanding every Set-Desired converges |
| `Shadow.OlderDeltaOvertakes` | backend/src/api/admin_handlers.rs:716-730 | an older queued delta overtakes a later Set-Desired with an empty delta |
| `Shadow.DeviceShadow.SetDesired` | backend/src/api/admin_handlers.rs:670-785 | merges the patch, answers with document and delta, and queues the delta iff it is not empty; an empty patch is refused |
| `Shadow.DeviceShadow.DeliverAll` | backend/src/db/database.rs:126-200 | delivering the queue reports its commands in order |
| `Shadow.DeviceShadow.GetDelta` | backend/src/api/admin_handlers.rs:789-836 | the delta of the current documents |
| `AlarmLifecycle.LifecycleHolds` | backend/src/api/alarm_handlers.rs:484-594 | under any interleaving of split checks and updates the history is a subsequence of active, acknowledged, cleared; one ack and one clear succeed at most |
| `AlarmLifecycle.CheckOpens` | backend/src/api/alarm_handlers.rs:484-594 | a check lets a permitted call go on, whose update then succeeds and sets the status, and answers any other with a conflict |
| `AlarmLifecycle.EngineClears` | backend/src/rule_engine/mod.rs:226-236 | the rule engine's clear leaves the alarm cleared, with one entry in its history |
| `AlarmLifecycle.LateAckConflicts` | backend/src/api/alarm_handlers.rs:484-540 | an ack whose check preceded a clear gets a conflict and changes nothing |
| `AlarmLifecycle.UpdateDecides` | backend/src/db/alarm.rs:375-430 | whatever its check saw, an ack succeeds iff nothing has happened to the alarm by its update, a clear iff no one has cleared it |
| `AlarmLifecycle.FirstUpdateWins` | backend/src/api/alarm_handlers.rs:484-594 | of calls of one kind whose checks all passed, the first that succeeds is the only one in every continuation |
| `AlarmLifecycle.ClearedIsFinal` | backend/src/db/alarm.rs:411-430 | a cleared alarm stays cleared and every later call conflicts |
| `AlarmLifecycle.AlarmRecord.Handle` | backend/src/api/alarm_handlers.rs:484-594 | a handler run to its end succeeds iff the status permitted it, and then sets its target |
| `WebhookRetry.BudgetIsConserved` | backend/src/main.rs:281-349 | failed attempts plus retries left equal the budget; pending rows have budget left; final failure has spent all of it |
| `WebhookRetry.AttemptsAreBounded` | backend/src/main.rs:281-349 | no more attempts than the budget, and that many make the row terminal |
| `WebhookRetry.TerminalIsAbsorbing` | backend/src/db/alarm.rs:437-450 | success and final failure never change |
| `WebhookRetry.PeriodicSettledExactlyWhen` | backend/src/main.rs:281-349 | n periodic ticks, with attempts that take up to an interval, settle every row iff the budget is positive and n is at least twice the budget less one |
| `WebhookRetry.SettledExactlyWhen` | backend/src/db/alarm.rs:437-478 | n ticks whose queries wait an interval after the last write settle every row iff the budget is between 1 and n |
| `WebhookRetry.NoBudgetIsStuck` | backend/src/db/alarm.rs:437-450 | a pending row without budget is never retried and never settles |
| `WebhookRetry.ApiStatusMeans` | backend/src/api/alarm_models.rs:185-189 | the API shows `failed` iff a retry is to come and `final_failed` iff the whole budget failed |
| `WebhookRetry.RetrySingleWebhook` | backend/src/main.rs:229-278 | posts the urls in order until one refuses; succeeds iff none refuses or the rule is gone |
| `WebhookRetry.AlarmTable.DecrementRetry` | backend/src/db/alarm.rs:458-478 | takes one retry when there is one, and says how many are left |
| `WebhookRetry.AlarmTable.RetryTick` | backend/src/main.rs:281-349 | the tick loop moves each row that was due at the query by one retry, scheduled from its own write, and leaves the others alone |
| `AlarmRules.StoredRulesAreValid` | backend/src/api/alarm_models.rs:261-410 | after any interleaving of creates, two-step partial updates, status changes and deletes every stored rule is well formed |
| `AlarmRules.CreateRefusedExactlyWhen` | backend/src/api/alarm_models.rs:261-410 | a creation is refused exactly for a listed defect of its trigger, condition, actions, clear condition or duration |
| `AlarmRules.UpdateRefusedExactlyWhen` | backend/src/api/alarm_handlers.rs:186-240 | an update is refused exactly when a field that is present has such a defect |
| `AlarmRules.WriteMeans` | backend/src/db/alarm.rs:74-130 | in every run the write of an accepted update replaces exactly the fields of its request in the rule as then stored, whatever came between fetch and write |
| `AlarmRules.OtherWritesMean` | backend/src/db/alarm.rs:132-145 | a status change writes the switch alone, a deletion removes the rule alone |
| `AlarmRules.UpdateKeepsRule` | backend/src/api/alarm_handlers.rs:186-261 | an accepted partial update keeps a rule well formed |
| `AlarmRules.ClearFieldMeans` | backend/src/api/alarm_models.rs:83-127 | an absent, null and present clear condition keep, erase and replace; a present one reaches property rules only |
| `AlarmRules.DeviceRulesFire` | backend/src/rule_engine/evaluator.rs:56-70 | every stored device rule fires on its trigger, every stored operator is supported |
| `AlarmRules.RuleTable.CreateRule` | backend/src/api/alarm_handlers.rs:66-118 | accepts exactly the valid requests for an existing product and stores the rule |
| `AlarmRules.RuleTable.UpdateRule` | backend/src/api/alarm_handlers.rs:179-261 | accepts exactly the requests valid for the stored trigger type; a field present gets the request's value, an absent one stays, and no other rule changes |
| `AlarmRules.RuleTable.SetStatus` | backend/src/api/alarm_handlers.rs:300-350 | writes the switch of the rule, if it exists |
| `AlarmRules.RuleTable.DeleteRule` | backend/src/api/alarm_handlers.rs:365-400 | removes the rule, if it exists |
| `RuleEngine.AlarmExactlyWhen` | backend/src/rule_engine/mod.rs:117-236 | over every history of reports, each with the settings it met, an alarm is raised iff the condition holds, a stretch as long as the duration leads up to it and no alarm fell into the throttle window |
| `RuleEngine.AlarmsAreSpaced` | backend/src/rule_engine/cache.rs:80-98 | two alarms of evaluations that do not overlap are the later one's throttle window apart, whatever rules change in between |
| `RuleEngine.DurationExact` | backend/src/rule_engine/cache.rs:111-142 | the tracked start decides exactly whether a long enough stretch of the history leads up to the report |
| `RuleEngine.ThrottleExact` | backend/src/rule_engine/cache.rs:80-109 | the stored trigger time decides exactly whether the history has a recent alarm |
| `RuleEngine.SteadyStretch` | backend/src/rule_engine/mod.rs:117-144 | while the rule asks for a duration a stretch is an uninterrupted one |
| `RuleEngine.InterruptionMissed` | backend/src/rule_engine/mod.rs:117-124 | a failing report that meets the rule without a duration interrupts nothing |
| `RuleEngine.EngineRemembers` | backend/src/rule_engine/cache.rs:418-463 | over every run of evaluations and rule changes the shared rule map stays empty and every memory is that of the whole history |
| `RuleEngine.RuleChangeDropsNothing` | backend/src/rule_engine/cache.rs:450-463 | a rule change leaves every memory as it was |
| `RuleEngine.RunRaisesExactlyWhen` | backend/src/rule_engine/mod.rs:28-50 | in every run an evaluation raises an alarm iff the whole history of its rule and device says so |
| `RuleRace.SpacedWhenTestFollows` | backend/src/rule_engine/mod.rs:145-166 | in every interleaving of tests and marks two alarms are the later one's window apart when its test follows the earlier one's mark |
| `RuleRace.SpacingKeptIff` | backend/src/rule_engine/mod.rs:145-166 | from every reachable state, however the evaluations under way finish, alarms stay spaced iff they were, at most one of them matters and the last alarm is out of its window |
| `RuleRace.SafeExactlyWhenAlone` | backend/src/rule_engine/mod.rs:145-166 | along a run no point lets the scheduler bring alarms too close iff at no point an evaluation that passed a throttle test has another beside it |
| `RuleRace.OverlapRaisesTwice` | backend/src/api/handlers.rs:156-166 | two evaluations that test before either marks both raise an alarm |
| `RuleEngine.StateKeyRule` | backend/src/rule_engine/cache.rs:144-163 | the rule id is read back from a state key, whatever the device id holds |
| `RuleEngine.KeptExactlyWhen` | backend/src/rule_engine/cache.rs:144-163 | invalidation keeps an entry iff its rule is not named |
| `RuleEngine.InMemoryRuleStateStore.Evaluate` | backend/src/rule_engine/mod.rs:117-236 | run to its end, one pass over a rule updates the memory of that rule and device only, as the history function says |
| `RuleEngine.InMemoryRuleStateStore.InvalidateByRuleIds` | backend/src/rule_engine/cache.rs:144-163 | empties the memory of the named rules on every device and of no other |
| `RuleEngine.RuleCache.Clone` | backend/src/rule_engine/cache.rs:418-422 | a clone has a rule map of its own and shares the state store |
| `RuleEngine.RuleCache.Trigger` | backend/src/api/handlers.rs:156-166 | an evaluation runs on a clone: it leaves the shared rule map as it is and moves the memories of the loaded rules on that device |
| `RuleEngine.RuleCache.InvalidateProduct` | backend/src/rule_engine/cache.rs:450-463 | empties the memory of the product's rules that this map holds, of which the shared one holds none |
| `DeviceAuth.ToleranceExact` | backend/src/api/auth_handlers.rs:660-680 | the window admits the timestamps within the tolerance and the one that wraps |
| `DeviceAuth.GeneratedIsAccepted` | backend/src/api/auth_handlers.rs:641-698 | a generated password is accepted for every client up to 64 bytes, dot-free 6-byte nonce and timestamp in the window |
| `DeviceAuth.AcceptedHasForm` | backend/src/api/auth_handlers.rs:641-698 | whatever is accepted has the three-part form with this client's signature |
| `DeviceAuth.SignedTextInjective` | backend/src/api/auth_handlers.rs:680-698 | the signed text determines client, nonce and timestamp, even for client ids with dots |
| `DeviceAuth.DeviceRegistry.CheckAdmission` | backend/src/api/auth_handlers.rs:711-757 | admits registered devices and those of auto-provisioning products, and registers what it admits |
| `DeviceAuth.DeviceRegistry.Auth` | backend/src/api/auth_handlers.rs:630-709 | admits iff the password is valid, a username is present and the device is admitted |
| `UploadDirs.RuleDecides` | backend/src/api/handlers.rs:457-476 | every rule ending in slash and star allows a directory iff the segments of its substituted base are a prefix of the directory's |
| `UploadDirs.ListsUnite` | backend/src/api/handlers.rs:457-476 | no rule allows nothing, and two lists together allow what either allows |
| `UploadDirs.ListDecides` | backend/src/api/handlers.rs:457-476 | a list of rules ending in slash and star is decided by the segments of its substituted bases |
| `UploadDirs.BareStarDecides` | backend/src/api/handlers.rs:470-471 | a bare star stands for any continuation of the text before it |
| `UploadDirs.PlainRuleDecides` | backend/src/api/handlers.rs:472-473 | without a star a rule allows one directory |
| `UploadDirs.PublicRule` | backend/src/api/handlers.rs:753-782 | the product and device rule beside `public/*` allows the device's own subtree and `public` |
| `UploadDirs.SegmentsDecide` | backend/src/api/handlers.rs:468-471 | the same for a rule after substitution |
| `UploadDirs.OrderAgreesExactlyWhen` | backend/src/api/handlers.rs:457-476 | for every rule and valid identifiers both substitution orders agree iff no identifier completes a placeholder at a `$` that begins none |
| `UploadDirs.OrderDoesNotMatter` | backend/src/api/handlers.rs:457-476 | when every `$` of a rule begins a placeholder both orders fill in both at once |
| `UploadDirs.OrderCanMatter` | backend/src/api/handlers.rs:457-476 | a rule and a valid product id for which the orders differ |
| `UploadDirs.OwnDirectoryOnly` | backend/src/api/handlers.rs:457-476 | the product and device rule allows exactly the directories below that product and device |
| `UploadDirs.DevicesAreSeparate` | backend/src/api/handlers.rs:457-476 | distinct devices share no directory under that rule |
| `Semver.ParseSemverToInt` | backend/src/api/ota_handlers.rs:28-72 | the two loops accept exactly three segments in range and pack them |
| `Semver.AcceptedExactlyWhen` | backend/src/api/ota_handlers.rs:28-72 | accepted are exactly three u32 segments of at most 99, 99 and 999, with their packed value |
| `Semver.PackBijective` | backend/src/api/ota_handlers.rs:28-79 | packing is a bijection between versions in range and 0..=9,999,999 |
| `Semver.FormatRoundTrip` | backend/src/api/ota_handlers.rs:28-79 | parsing the formatted form of n returns n on the whole range |
| `Semver.ParseThenFormat` | backend/src/api/ota_handlers.rs:28-79 | formatting what was parsed gives the canonical form with the same meaning |
| `Semver.OrderIsLexicographic` | backend/src/api/ota_handlers.rs:28-72 | integer order is the order of (major, minor, patch) |
| `Semver.SidesAgree` | backend/src/db/ota.rs:255-270 | the device-side and admin-side parsers agree on every text without a minus sign |
| `Series.StrideIsLeast` | backend/src/api/admin_handlers.rs:1263-1267 | the stride is the least step that keeps at most 1000 points, above 1 iff there are more rows |
| `Series.SampleAt` | backend/src/db/database.rs:610-645 | kept rows are exactly a stride apart, beginning with the first |
| `Series.SeriesResponse` | backend/src/api/admin_handlers.rs:1366-1414 | at most 1000 points always, at the times of the first row and of every stride after it; the rows themselves when no two have one time; when the count has not drifted the LIMIT drops nothing |
| `Series.NormalizeSeriesKeys` | backend/src/api/admin_handlers.rs:1270-1288 | accepts iff all keys are good and 1 to 5 are distinct, and returns them in order of first occurrence |
| `Series.DistinctMeans` | backend/src/api/admin_handlers.rs:1270-1288 | deduplication keeps exactly the keys given, each once |
| `Series.DistinctInOrder` | backend/src/api/admin_handlers.rs:1270-1288 | in the order of their first occurrences |
| `DocGraph.BuildReachableDocs` | scripts/check-markdown-links.py:311-324 | the worklist ends and returns exactly the documents at the end of some walk from an entry |
| `LinkRewrite.ResolveToRoot` | scripts/fix-relative-paths.py:13-60 | the loop computes the rewritten link |
| `LinkRewrite.RewrittenElsewhere` | scripts/fix-relative-paths.py:23-35 | links below one of twelve directories get a leading slash, links with one stay |
| `LinkRewrite.FromRootMeans` | scripts/check-markdown-links.py:172-178 | what a link built from the root resolves to |
| `LinkRewrite.RewritingKeepsTarget` | scripts/fix-relative-paths.py:13-60 | a link resolves to the same path before and after when no `..` follows a name and no doubled slash arises |
| `LinkRewrite.KeptExactlyWhen` | scripts/fix-relative-paths.py:13-60 | a link keeps its target in every file of every project iff it is left alone or has that form |
| `LinkRewrite.LateUpBreaks` | scripts/fix-relative-paths.py:37-45 | `./a/../b` changes its target in some file |
| `LinkRewrite.DoubleSlashBreaks` | scripts/fix-relative-paths.py:50-53 | `.//x` changes its target in some file |
| `LinkRewrite.SecondPassChangesNothing` | scripts/fix-relative-paths.py:74-93 | rewriting a rewritten link changes nothing |
| `LinkFiles.FixFile` | scripts/fix-relative-paths.py:63-100 | every link outside fence lines is rewritten in place; the count is positive iff some line changed |
| `LinkFiles.FixedFileKeepsTargets` | scripts/fix-relative-paths.py:63-100 | in a fixed file every link that is safe to rewrite still has its target |
| `LinkFiles.SecondRunWritesNothing` | scripts/fix-relative-paths.py:63-100 | a second run of the script counts and writes nothing |
| `BatchRun.DetermineResumeIndex` | scripts/demo-run-all.py:141-178 | accepts exactly the resumable reports, and an accepted index is the number of completed entries |
| `BatchRun.RestoreIdempotentWhen` | scripts/demo-run-all.py:208-250 | restoring twice is restoring once iff the next file is not among the completed ones |
| `BatchRun.RestoreIdempotent` | scripts/demo-run-all.py:208-250 | for distinct files restoring is idempotent |
| `BatchRun.RepeatedFileBlocks` | scripts/demo-run-all.py:163-170 | with a repeated file the second continuation is refused |
| `BatchRun.FinalizedMeans` | scripts/demo-run-all.py:415-491 | a finalized report covers each file in order, its counts and those of the Markdown report add up, it cannot be resumed, and finalizing again changes nothing |
| `BatchRun.CoveredOnce` | scripts/demo-run-all.py:434-467 | in a finalized batch of distinct files exactly one entry is about each file |
| `BatchRun.ReportPartition` | scripts/demo-run-all.py:253-263 | the report's passed plus fixed are the passed files, its failed the failed ones |
| `BatchRun.BatchReport.Continue` | scripts/demo-run-all.py:208-250 | continues exactly the reports that are continuable on the platform at hand, at the first file without an entry and with the counts of its entries, and leaves the others unchanged |
| `BatchRun.CountStatusIs` | scripts/demo-run-all.py:244-249 | the counts are those of the entries with the status |
| `BatchRun.BatchReport.Finalize` | scripts/demo-run-all.py:415-491 | closes exactly the complete and valid reports, and leaves the others unchanged |
| `BatchRun.EveryRun` | scripts/demo-run-all.py:141-250 | with any interruptions an open report is resumable and a closed one complete |
| `BatchRun.EntriesStay` | scripts/demo-run-all.py:141-250 | entries are never lost or changed, and a closed report stays as it is |
| `BatchRun.FoundExactlyWhen` | scripts/demo-run-all.py:229-232 | a file is found iff it is on disk and, where a backslash is a name character, not in a directory |
| `BatchRun.InterruptedRunContinues` | scripts/demo-run-all.py:208-250 | an interrupted batch continues iff it is open, has a file left and all its files are found, and then at that file |

## Left out

- SchemaCache.StaleOnlyIf: one direction; a late populate may carry a schema that became Active again, so the events alone do not imply staleness. `StaysAgreedIff` has both directions.
- PublicationOrder.PublishOrder: a sufficient condition for one run, since a schedule may happen to keep the order; over all schedules `SafeExactlyWhenSole` has both directions.
- CommandStore.CommandTables.CreateServiceCommand: the handler runs alone and its drain meets no database fault; when one does, the answer is Pending although the row may be Sent.
- WebhookRetry.PeriodicSettledExactlyWhen: queries are an interval apart and an attempt takes at most one; both fail when the loop over all pending rows of a tick takes longer, after which the timer's next ticks come early. `BudgetIsConserved` holds for ticks at any times.
- BatchRun.EveryRun: the driver that runs the files is not part of the repository's scripts; its two writes (announce a file, record an outcome) are assumed to be one atomic write of the report each.
- RuleEngine.InMemoryRuleStateStore.Evaluate: one clock reading stands for the several that one report takes; overlapping evaluations are modelled for the throttle state (`RuleRace`), not for the duration state.
- RuleEngine.AlarmExactlyWhen: evaluations in the order of their times; tasks that the scheduler starts out of order are not modelled.
- DeliveryTheorems.ClaimOrder: an insert assigns its id and becomes visible in one step; two concurrent transactions may commit in the other order.
- AlarmRules.DeviceRulesFire: the comparison operators other than `always` are a parameter.
- LinkRewrite.ResolveToRoot: URL fragments belong to the last segment, symbolic links are not followed, and directory names hold no backslash.
- LinkFiles.FixFile: a line is given as its list of link targets; the regular expression that finds them is not modelled.
- The rule of section 4.7.2 of MQTT Version 3.1.1 for topics that begin with `$`, which the code does not have either.
- Database faults other than those that abort a drain; the Redis variants of the schema cache and of the rule state.
- The OTA report loop of `ota_version_post` and the selection of updates: they would only add easy members.
- The distinction of integers and floats in JSON numbers, JSON Schema evaluation, base64 and payload decoding.
- HMAC-SHA1 itself: a parameter of which only the shape of the output is used.
- OAuth login, certificates, factory and product handlers, file storage, telemetry and configuration: passthrough to libraries and repositories.
- The frontend, the end-to-end specifications and the process scripts.
