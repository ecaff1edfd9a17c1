# Access limiting: the quota-consumption engine of `UserService`

This project models the quota logic of the access-limiting service in Dafny.
Each user has a remaining `quota`. A consumption request looks the user up in
one of two sources. By day it uses the store (`userRepository`, keyed by id).
Otherwise it uses the in-memory snapshot (`elasticUsers`). It then decrements
the quota when it is positive. A second, independent store lookup decides
whether the decremented record is saved. `getUsersQuota` reports one quota per
id across both sources, and the store wins on a shared id.

Modules:

- `Wrappers`: `Option`. `None` is the `null` the service returns.
- `TimeWindow`: `LocalTime` as hour, minute, second and nano, with Java's
  field-by-field `compareTo`. `IsDaytime` is `isDaytime` with the clock reading
  passed in.
- `UserModel`: `UserRecord`, the value of a user, and the class `User`, whose
  names and quota change in place.
- `QuotaRules`: the decision logic as functions of a `Store`, which holds the
  store rows and the snapshot entries' states. `Candidate` is the first lookup.
  `Decrement` is `decrementQuota`. `Consume` is `consumeQuota`, with a
  three-way outcome: `Consumed`, `Exhausted` or `NotFound`. `Reply` turns the
  outcome into what Java returns, which is `null` for both `Exhausted` and
  `NotFound`. `QuotaView` is the map of `getUsersQuota`. The lemmas about
  these functions state the properties.
- `Service`: the class `UserService`. Its field `repository` is a
  `map<string, UserRecord>` and its constant `elasticUsers` is a `seq<User>`
  of distinct objects. Its methods are proved against `QuotaRules`: after
  `ConsumeQuota`, the reply and the new state are those of `Consume` on the
  old state.

How the model reads the code:

- The store is modelled as a map of values, and the JPA persistence context
  is left out. `findById` yields a fresh `User` object, and `save` stores the
  object's current state under its id. So a daytime candidate is a private
  copy. Every change to such a copy is followed by `save`, so sharing one
  managed instance between the two lookups would give the same results.
- A night candidate is the snapshot's own object (`UserService.java:77`). Its
  `setQuota` (`UserService.java:95`, `104`) therefore changes the snapshot
  entry in place. The snapshot stands for an external index the service
  never writes back to, and one might expect a night decrement to stay out
  of later reads. The code does otherwise, and the model follows the code:
  `QuotaViewAfterConsume` shows that `getUsersQuota` then reports the new
  quota.
- At night, a store row with the same id is overwritten by the snapshot
  entry's state (`NightPathOverwritesStoredQuota`). This holds even for a row
  exhausted at quota 0.
- Java's `int` cannot overflow here, because the quota is lowered only when it
  is positive. The model uses unbounded `int`.
- `DAYTIME_START_HOUR`, `DAYTIME_END_HOUR` and `QUOTA_LIMIT` are constants in
  `Constants.java`, which is not part of this model. They are parameters here,
  with both hours in 0..23, which `LocalTime.of` demands.

## Model

| member | source | states |
|---|---|---|
| `TimeWindow.CompareToOrdersNanoOfDay` | src/main/java/com/vicarius/accesslimiting/service/UserService.java:85-86 | `isAfter`/`isBefore` compare the field-by-field order of `LocalTime`; that order is the order of nanoseconds since midnight, and it is 0 only for equal times |
| `TimeWindow.DaytimeIsOpenInterval` | src/main/java/com/vicarius/accesslimiting/service/UserService.java:83-87 | it is daytime iff the time lies strictly between START:00 and END:00 |
| `TimeWindow.DaytimeExcludesBoundaries` | src/main/java/com/vicarius/accesslimiting/service/UserService.java:85-86 | it is not daytime exactly at START:00, nor exactly at END:00 |
| `TimeWindow.NoDaytimeUnlessStartBeforeEnd` | src/main/java/com/vicarius/accesslimiting/service/UserService.java:85-86 | with a start hour not below the end hour, it is never daytime |
| `TimeWindow.DaytimeByClockHour` | src/main/java/com/vicarius/accesslimiting/service/UserService.java:83-87 | it is daytime iff the hour is in [start, end) and the time is not exactly START:00:00.000000000 |
| `UserModel.User.Named` | src/main/java/com/vicarius/accesslimiting/model/User.java:20-30 | `new User(firstName, lastName)` gets the generated id, the current instant as last login and the quota limit |
| `UserModel.User.constructor` | src/main/java/com/vicarius/accesslimiting/model/User.java:32-37 | `new User(id, firstName, lastName, quota)` holds exactly those values; its last login is the current instant |
| `UserModel.User.Load` | src/main/java/com/vicarius/accesslimiting/service/UserService.java:92 | the object built by a store lookup holds exactly the stored row |
| `QuotaRules.FirstMatch` | src/main/java/com/vicarius/accesslimiting/service/UserService.java:77 | the result is the index of an entry with the id and no earlier entry has it; the result is absent iff no entry has the id |
| `QuotaRules.Candidate` | src/main/java/com/vicarius/accesslimiting/service/UserService.java:73-78 | by day the candidate exists iff the store has the id, and it is that row; at night it exists iff some snapshot entry has the id, and it is the first such entry, even when the store has the id too; it always carries the requested id |
| `QuotaRules.NotFoundChangesNothing` | src/main/java/com/vicarius/accesslimiting/service/UserService.java:71-80 | "not found" happens iff the store lacks the id by day, or no snapshot entry has it at night; then neither store nor snapshot changes |
| `QuotaRules.ExhaustedChangesNothing` | src/main/java/com/vicarius/accesslimiting/service/UserService.java:98-110 | "exhausted" happens iff a candidate exists with quota <= 0; then nothing is decremented or saved, on both store branches |
| `QuotaRules.OutcomeOfCandidate` | src/main/java/com/vicarius/accesslimiting/service/UserService.java:89-113 | given a candidate, the outcome is the candidate with quota one lower if its quota is > 0, else "exhausted" |
| `QuotaRules.ConsumeSavesWhenStored` | src/main/java/com/vicarius/accesslimiting/service/UserService.java:77-97 | quota > 0 and id in the store: the reply has quota one lower, the store maps the id to exactly that record, and every other key keeps its row; by day the snapshot is unchanged, and at night its first entry with the id becomes the reply too |
| `QuotaRules.ConsumeTransientWhenNotStored` | src/main/java/com/vicarius/accesslimiting/service/UserService.java:102-106 | quota > 0 and id not in the store: only at night; the reply has quota one lower and the store is unchanged; the first snapshot entry with the id becomes the reply, and the snapshot keeps its length and ids |
| `QuotaRules.DaytimeLeavesSnapshot` | src/main/java/com/vicarius/accesslimiting/service/UserService.java:74-75 | by day the snapshot is never changed |
| `QuotaRules.ConsumedQuotaNonNegative` | src/main/java/com/vicarius/accesslimiting/service/UserService.java:94-95 | any returned record has the requested id and quota >= 0 |
| `QuotaRules.ConsumeKeepsKeyedById` | src/main/java/com/vicarius/accesslimiting/service/UserService.java:97 | after a consumption every store row is still kept under its own id |
| `QuotaRules.NextCandidateIsReply` | src/main/java/com/vicarius/accesslimiting/service/UserService.java:71-113 | after a success, the next call finds the returned record as its candidate, from the same source |
| `QuotaRules.CandidateAfterRepeats` | src/main/java/com/vicarius/accesslimiting/service/UserService.java:71-113 | after k calls on a candidate with quota >= k, the candidate is in the same place with quota lowered by k |
| `QuotaRules.ConsumedExactlyQuotaTimes` | src/main/java/com/vicarius/accesslimiting/service/UserService.java:94-95 | a candidate starting at quota n >= 0: call k+1 returns quota n-k-1 for k < n, and call n+1 reports "exhausted" |
| `QuotaRules.FirstMatchSameIdUpdate` | src/main/java/com/vicarius/accesslimiting/service/UserService.java:77 | replacing a snapshot entry by one with the same id changes no first match |
| `QuotaRules.QuotaViewPutIfAbsent` | src/main/java/com/vicarius/accesslimiting/service/UserService.java:119 | adding one snapshot entry to the view adds its id and quota only when the id is absent |
| `QuotaRules.QuotaViewAfterConsume` | src/main/java/com/vicarius/accesslimiting/service/UserService.java:89-125 | after a success the view has the same keys, reports the returned quota for the id (also for a night-only id), and keeps every other id's value |
| `QuotaRules.QuotaViewStoreWins` | src/main/java/com/vicarius/accesslimiting/service/UserService.java:117-119 | store {a:2} with snapshot [a:9, b:4] is reported as {a:2, b:4} |
| `QuotaRules.NightPathOverwritesStoredQuota` | src/main/java/com/vicarius/accesslimiting/service/UserService.java:76-97 | at night a store row at quota 0 whose snapshot entry has quota 5 is consumed successfully and saved with quota 4 |
| `Service.UserService.constructor` | src/main/java/com/vicarius/accesslimiting/service/UserService.java:25-29 | the service starts with the given store and snapshot and both hours, and the invariant holds |
| `Service.UserService.FindById` | src/main/java/com/vicarius/accesslimiting/service/UserService.java:92 | the result is null iff the id is not stored; otherwise it is a fresh object holding the stored row |
| `Service.UserService.Save` | src/main/java/com/vicarius/accesslimiting/service/UserService.java:97 | the store maps the object's id to its current state; nothing else changes |
| `Service.UserService.CreateUser` | src/main/java/com/vicarius/accesslimiting/service/UserService.java:31-34 | the user's state is stored under its id and returned |
| `Service.UserService.GetUser` | src/main/java/com/vicarius/accesslimiting/service/UserService.java:36-39 | a record is returned iff the id is stored, and it is the stored row for that id |
| `Service.UserService.UpdateUser` | src/main/java/com/vicarius/accesslimiting/service/UserService.java:41-54 | on a stored id only the two names change and the row is saved, keeping id and quota; on an unknown id it returns null and the store is unchanged |
| `Service.UserService.DeleteUser` | src/main/java/com/vicarius/accesslimiting/service/UserService.java:56-59 | the id's row is removed; every other row stays |
| `Service.UserService.FindInSnapshot` | src/main/java/com/vicarius/accesslimiting/service/UserService.java:77 | the loop finds exactly `FirstMatch` over the snapshot entries |
| `Service.UserService.DecrementQuota` | src/main/java/com/vicarius/accesslimiting/service/UserService.java:89-113 | quota > 0: the object's quota drops by one, other fields unchanged, and it is saved iff its id is stored; quota <= 0: null, and neither object nor store changes |
| `Service.UserService.ConsumeQuota` | src/main/java/com/vicarius/accesslimiting/service/UserService.java:71-81 | the reply and the new store and snapshot are those of `Consume` at the time's daytime flag |
| `Service.UserService.GetUsersQuota` | src/main/java/com/vicarius/accesslimiting/service/UserService.java:115-125 | the map is `QuotaView`: store ids with stored quotas, snapshot-only ids with their first entry's quota; nothing changes |

## Left out

- Logging (`log.info`, `log.warn`) has no effect on the modelled state.
- The clock reads (`LocalTime.now()`, `LocalDateTime.now()`) and the random `UUID` id are parameters. The last-login instant is an opaque integer.
- The hard-coded snapshot contents of `getUsersFromElasticSearch` are not modelled. The snapshot is any list of distinct user objects given to the constructor.
- Concurrency is not modelled, so neither is the lost update between concurrent `consumeQuota` calls. Calls are sequential.
- Spring, JPA and HTTP are not modelled: `UserController.java`, the Spring Data interface, and the JPA persistence context. The store is a map of values. `deleteById` on an unknown id does nothing.
- `setId` is not modelled, because the service never changes an id. In the model the id is a constant of `User`.
- `Service.UserService.GetUsersQuota`: the model walks the store's key set, while the code walks `findAll()`. The order does not matter, because the keys are distinct and every row is kept under its own id.
- `Service.UserService.ConsumeQuota`: the returned value is the record's state at return. The code returns the object itself, which a later night call could change again.
