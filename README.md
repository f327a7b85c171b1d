# Poll lifecycle engine of a cooperative voting backend

This project models the poll lifecycle of a cooperative-governance voting
backend. Members vote YES or NO in polls (voting sessions), and each poll is
opened on a topic and runs until a deadline. The model covers the service
that does three things:

- It opens a poll through a validation pipeline (`createPoll`). The checks
  run in a fixed order and the first one that fails decides the error:
  1. a topic id is required;
  2. the topic must exist;
  3. the topic must have no poll still open;
  4. the deadline must not be in the past (when no deadline is given, it
     defaults to one minute from now).
- It reports a poll's status (`getStatus`): OPEN or CLOSED, decided from the
  deadline and the current instant.
- It reports a poll's result (`getResult`): APPROVED, DISAPPROVED or TIE,
  decided by counting YES and NO votes.

Modules:

- `Wrappers` (wrappers.dfy): `Option` and `Result`.
- `Entities` (entities.dfy): votes, polls, the request that opens a poll, and
  the error kinds with their fixed message keys.
- `Results` (results.dfy): the vote tally and the result decision, with
  lemmas about both.
- `Status` (status.dfy): the status decision.
- `Repository` (repository.dfy): the two poll-store queries the service
  relies on, which are lookup by id and "open polls of a topic at an instant".
- `Service` (poll_service.dfy): the class `PollService`. It holds the topic
  store (a set of topic ids), the poll store (a sequence of polls) and the
  identity the store gives the next saved poll. It also holds the pure
  decision `CreateDecision` that `CreatePoll` is proved against, plus the
  lemmas about creating polls.

Time is a whole number of seconds, and one minute is 60. The clock is never
read. Every instant the service would read is a parameter.

`createPoll` reads the clock up to three times. It always reads it in the
open-poll query and in the past check. In between, it reads it to compute the
default deadline, but only when the request gives no deadline. The model
gives each read its own instant (`Service.Clock`), so `deadline` is unused
when a deadline is given. `SingleInstant` is the case where all three reads
return the same instant. No ordering between the instants is assumed, because
the wall clock can be set back. Under separate instants, the default deadline
passes the past check only when at most a minute passes between computing
the deadline and checking it (`DefaultDeadline`). At one instant it always
passes (`DefaultDeadlineAtOneInstant`).

The body of the store query `findAllOpenedPollsByTopic` is not part of this
model. It is modelled as returning the polls of the topic whose deadline is
strictly after the instant asked about (`Repository.OpenPollsOf`), which is
an assumption about that collaborator. Under this assumption, the query and
`getStatus` disagree at the deadline instant. At that instant a stored poll
is reported OPEN, yet a second poll on the same topic can be opened
(`SecondPollAtDeadlineInstant`).

## Model

| member | source | states |
|---|---|---|
| Results.Count | src/main/java/com/desafio/cooperativismo/services/PollService.java:88-89 | the stream filter-and-count: never more than the number of votes; `CountIsMultiplicity` ties it to the multiplicity of the choice |
| Results.ResultOf | src/main/java/com/desafio/cooperativismo/services/PollService.java:92-98 | getResult's three-way comparison of the counts; `ResultByMultiplicity` and `ResultIsStrictMajority` state when each result is returned |
| Results.CountsCoverAllVotes | src/main/java/com/desafio/cooperativismo/services/PollService.java:88-89 | the YES count and the NO count add up to the number of votes: every vote is tallied, whatever the poll's status |
| Results.CountIsMultiplicity | src/main/java/com/desafio/cooperativismo/services/PollService.java:88-89 | the stream filter-and-count equals the multiplicity of the choice among the choices cast |
| Results.ResultByMultiplicity | src/main/java/com/desafio/cooperativismo/services/PollService.java:92-98 | APPROVED exactly when there are more YES than NO votes, DISAPPROVED exactly when there are fewer, TIE exactly when the counts are equal |
| Results.ResultIgnoresOrder | src/main/java/com/desafio/cooperativismo/services/PollService.java:88-100 | two vote lists with the same choices in any order give the same result |
| Results.NoVotesIsTie | src/main/java/com/desafio/cooperativismo/services/PollService.java:96-97 | a poll with no votes is a TIE |
| Results.ResultIsStrictMajority | src/main/java/com/desafio/cooperativismo/services/PollService.java:92-98 | APPROVED iff a strict majority of all votes are YES, DISAPPROVED iff a strict majority are NO, TIE iff YES is exactly half |
| Results.OneMoreYes | src/main/java/com/desafio/cooperativismo/services/PollService.java:88-98 | one more YES vote keeps APPROVED, turns TIE into APPROVED, and cannot turn DISAPPROVED into APPROVED |
| Results.OneMoreNo | src/main/java/com/desafio/cooperativismo/services/PollService.java:88-98 | the mirror image for one more NO vote |
| Status.StatusAt | src/main/java/com/desafio/cooperativismo/services/PollService.java:117-121 | getStatus's strict `isAfter` decision; `OpenAtDeadline` and `ClosingIsPermanent` state its boundary and monotonicity, and `PollService.GetStatus` states it in full |
| Status.OpenAtDeadline | src/main/java/com/desafio/cooperativismo/services/PollService.java:117-121 | at the deadline instant itself the poll is OPEN, because only strictly after closes it |
| Status.ClosingIsPermanent | src/main/java/com/desafio/cooperativismo/services/PollService.java:117-121 | once CLOSED a poll stays CLOSED at every later instant, and OPEN at an instant implies OPEN at every earlier one |
| Repository.Find | src/main/java/com/desafio/cooperativismo/services/PollService.java:86-87 | lookup by id finds nothing exactly when no stored poll has the id, and otherwise returns the first stored poll with that id |
| Repository.OpenPollsOf | src/main/java/com/desafio/cooperativismo/services/PollService.java:145 | the open-poll query returns exactly the stored polls of the topic whose deadline is strictly after the instant |
| Repository.OpenPollsShrinkOverTime | src/main/java/com/desafio/cooperativismo/services/PollService.java:145 | at a later instant a topic has no more open polls than at an earlier one |
| Repository.OpenPollsAfterSave | src/main/java/com/desafio/cooperativismo/services/PollService.java:73 | saving a poll adds it to its topic's open polls exactly when its deadline is after the instant, and changes no other topic's (this follows by unfolding `OpenPollsOf` once; it serves the proof of `CreateKeepsAtMostOneOpen`) |
| Service.RequiredTopicId | src/main/java/com/desafio/cooperativismo/services/PollService.java:138-142 | fails with MissingParameter (topic required) exactly when the request has no topic id, and otherwise yields that id |
| Service.CheckTopicExists | src/main/java/com/desafio/cooperativismo/services/PollService.java:130-136 | fails with ResourceNotFound (topic not found) exactly when the id is not in the topic store, and otherwise yields the topic |
| Service.EffectiveEndAt | src/main/java/com/desafio/cooperativismo/services/PollService.java:64-69 | the deadline given when there is one, otherwise exactly one minute (60 seconds) after the instant read |
| Service.ValidateTopicRelationship | src/main/java/com/desafio/cooperativismo/services/PollService.java:144-149 | fails with InvalidParameter (poll already running) exactly when the topic has a stored poll whose deadline is after the query instant |
| Service.CheckEndNotInPast | src/main/java/com/desafio/cooperativismo/services/PollService.java:124-128 | fails with InvalidParameter (poll in past) exactly when a poll with that deadline would not be reported OPEN at the check instant |
| Service.CreateDecision | src/main/java/com/desafio/cooperativismo/services/PollService.java:54-74 | a successful decision has an existing topic with no open poll and a deadline not before the past-check instant |
| Service.PollService.CreatePoll | src/main/java/com/desafio/cooperativismo/services/PollService.java:54-74 | on any failure it returns the first failing check's error and leaves the poll store unchanged; on success it appends exactly one poll with a fresh id, the resolved topic, the effective deadline and no votes, and keeps the existing polls |
| Service.PollService.GetResult | src/main/java/com/desafio/cooperativismo/services/PollService.java:85-101 | fails with ResourceNotFound (poll not found) exactly when no poll has the id; otherwise returns the tally result of that poll's votes; changes nothing |
| Service.PollService.GetStatus | src/main/java/com/desafio/cooperativismo/services/PollService.java:113-122 | fails with ResourceNotFound (poll not found) exactly when no poll has the id; otherwise CLOSED iff now is strictly after that poll's deadline, OPEN iff at or before; changes nothing |
| Service.CreateCheckOrder | src/main/java/com/desafio/cooperativismo/services/PollService.java:55-71 | first failure wins: no topic id gives MissingParameter; an unknown topic gives ResourceNotFound; an open poll on the topic gives InvalidParameter whatever the deadline asked for; otherwise a past effective deadline gives InvalidParameter, and any other effective deadline succeeds |
| Service.DefaultDeadline | src/main/java/com/desafio/cooperativismo/services/PollService.java:64-66 | with no deadline given, the saved deadline is the computation instant plus 60 seconds, and the call fails with InvalidParameter (poll in past) only if the past check happens more than 60 seconds after that instant |
| Service.DefaultDeadlineAtOneInstant | src/main/java/com/desafio/cooperativismo/services/PollService.java:64-71 | served at one instant, a request without a deadline on an existing topic with no open poll always succeeds with deadline now + 60 |
| Service.ExplicitDeadline | src/main/java/com/desafio/cooperativismo/services/PollService.java:124-128 | an explicit deadline strictly before the check instant fails with InvalidParameter; one equal to or after it is kept as given |
| Service.CreatedPollIsOpen | src/main/java/com/desafio/cooperativismo/services/PollService.java:117-128 | a poll just opened is reported OPEN at every instant from the open-poll check to the past check, with no assumption that the clock runs forward |
| Service.CreateKeepsAtMostOneOpen | src/main/java/com/desafio/cooperativismo/services/PollService.java:144-149 | if no topic had two open polls at an instant from the open-poll check on, the same holds after the save |
| Service.SecondPollAtDeadlineInstant | src/main/java/com/desafio/cooperativismo/services/PollService.java:144-149 | at a poll's deadline instant, getStatus reports it OPEN while a second poll on its topic can still be opened |

## Left out

- `getPolls` is left out because it only passes `findAll` through.
- Controllers, HTTP routing, request binding and annotation-driven validation are left out.
- Casting votes is left out because it happens outside this service. Stored polls and their votes are whatever the stores already hold, given to the constructor.
- Topics are modelled only by their ids. Name and description play no part in these decisions.
- Topic lookup by id is modelled as membership in the set of topic ids.
- `findAllOpenedPollsByTopic` is modelled by the assumption stated above, because its query text is not part of this model.
- The save step models identity generation as a counter (`nextId`). Database failures are not modelled.
- `LocalDateTime` and `Duration` become whole seconds. Sub-second clock resolution is not modelled.
- The `getEndAt() != null` guard of the past check is not modelled separately, because by step 4 the deadline is always set.
- Each call is treated as atomic. The check-then-insert race between two concurrent `createPoll` calls on one topic is not modelled.
- The 64-bit `Long` vote counts are modelled as unbounded integers. A poll cannot hold enough votes to overflow them.
