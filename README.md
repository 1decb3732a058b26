# Requester dispatcher: a verified model

The Requester service drives three backend services. The buffer holds pending
cleaning requests and the cleaner runs the cleaning teams; the generator is the
third, and this model leaves it out. The dispatcher loop runs over and over. On
each pass it asks the cleaner which teams are idle. When at least one is idle,
it pops the top request from the buffer. It then offers that request to the idle
teams in the order given, and stops at the first team that accepts. For the
accepted request it appends a `RequestStat` record. Once the buffer will not hand
out a request, the loop waits until all `serviceSize` (10) teams are idle,
records `TotalTime` and stops. Later, the statistics report takes a snapshot of
every team's aggregate figures into `TeamsStats`.

The model has five modules:

- `Wrappers` (`wrappers.dfy`): `Option` and `Result`.
- `Dto` (`dto.dfy`): the records `RequestStat` and `TeamStat`, with the Go integer widths as newtypes. `float64` values and `time.Duration` are only copied.
- `Services` (`services.dfy`): the fields of the buffer's and the cleaner's messages that the dispatcher reads or sends, and `Call`, which names a remote call issued by the loop.
  - A protobuf message field can be unset. Its generated getter then returns zero values. `PopTopOut.GetReq` and `ProceedCleaningOut.GetReq` model this.
- `Dispatch` (`dispatch.dfy`): the loop as a state machine and the lemmas about it.
  - One loop iteration meets its environment through an `Observation`. That holds the cancellation flag checked at the top of the loop and the replies to GetAvailableTeams and PopTop. It also holds a function standing for the cleaner's answer to each ProceedCleaning call, the replies to the polls after a failed PopTop, and the clock reading.
  - `Step` gives one iteration: the new statistics, how the iteration ends, and the calls it issues in order.
  - `Run` chains iterations until one of them does not continue.
- `Logic` (`logic.dfy`): the `Dispatcher` class with the fields `ReqsStats`, `TeamsStats` and `TotalTime`, which are updated in place.
  - `Iterate` is proved equal to `Step`, and `LaunchDispatcher` to `Run`. `CreateStatisticsReport` is proved to append `TeamStatsOf` of the reply.
  - The two inner loops of the source are the methods `OfferToTeams` and `AwaitAllIdle`. Each has its own loop invariants and states its result outright.

`TotalTime` is an `Option<Duration>`. `None` stands for the Go zero value, which the code never assigns on its own.

## Notes on the code's behaviour

- Any PopTop error ends the work. There is no retry, and there is no separate "no pending request" reply (internal/logic/logic.go:103-117).
- Cancellation returns without setting `TotalTime` (internal/logic/logic.go:81-84).
- The polling loop after a failed PopTop does not check for cancellation. It stops only when a reply lists exactly 10 teams. The `!=` test means that a reply with more than 10 teams does not stop it either (internal/logic/logic.go:107).
- A cancellation that lands after the team query makes PopTop fail with the context's error. That takes the end-of-work branch (internal/logic/logic.go:104). Every later poll fails the same way and counts as zero teams (line 110), so the polling loop never ends and LaunchDispatcher never returns. `StepPollsAfterCancelledPop` states this for any number of failed polls.
- The appended record's `TeamId` is the one in the cleaner's confirmation, not the id of the team the loop offered the request to (internal/logic/logic.go:141).
- A request that every team rejects is dropped. The model has no call that could requeue it.

## Model

| member | source | states |
|---|---|---|
| `Logic.Dispatcher.constructor` | internal/logic/logic.go:37-51 | a new dispatcher has no request records, no team records, and TotalTime not set |
| `Logic.Dispatcher.Iterate` | internal/logic/logic.go:79-152 | one loop iteration changes the fields and issues the calls exactly as `Step` says for the old state and the observation |
| `Logic.Dispatcher.LaunchDispatcher` | internal/logic/logic.go:53-159 | resets TeamsStats to empty, then runs the loop: the final fields, outcome, iteration count and call trace are those of `Run` |
| `Logic.Dispatcher.CreateStatisticsReport` | internal/logic/logic.go:172-185 | on a GetTeamsStats error returns that error with nothing changed; otherwise appends one TeamStat per reported team, in order; ReqsStats and TotalTime untouched |
| `Logic.OfferToTeams` | internal/logic/logic.go:121-149 | offers the request to teams in list order, each with the popped request's id, client, priority and cleaning type; stops right after the first acceptance; returns a record iff some team accepted, built from that acceptance; offers to every team when none accepts |
| `Logic.AwaitAllIdle` | internal/logic/logic.go:105-111 | issues polls until one reports exactly ServiceSize teams (a failed poll counts as zero); reports whether that happened, and every earlier poll reported a different count |
| `Dispatch.FirstAccepting` | internal/logic/logic.go:121-148 | the position of the first team that accepts, or none; every team before it (or every team) rejects |
| `Dispatch.FirstIdlePoll` | internal/logic/logic.go:107-111 | the position of the first poll that reports ServiceSize teams, or none; no earlier poll does |
| `Dispatch.TeamStatsOf` | internal/logic/logic.go:178-185 | one TeamStat per team in order, copying Id, Speed, ProcessedRequests and TotalBusyTime |
| `Dispatch.StepCancelled` | internal/logic/logic.go:80-84 | a cancelled context stops the loop with no call and no change; TotalTime is not set |
| `Dispatch.StepWithoutTeams` | internal/logic/logic.go:86-101 | a failed or empty team query is followed by no PopTop and no ProceedCleaning, and changes no field |
| `Dispatch.StepOffersInOrder` | internal/logic/logic.go:121-148 | after a successful pop the calls are the team query, PopTop, then offers to a prefix of the team list in order; that prefix ends at the first accepting team, or is the whole list |
| `Dispatch.StepAppendsAtMostOne` | internal/logic/logic.go:132-149 | an iteration keeps every earlier record and appends exactly one iff a team accepted, none otherwise; TeamsStats unchanged |
| `Dispatch.StepRecordProvenance` | internal/logic/logic.go:137-145 | the appended record takes Id, TeamId, Priority and TimeInCleaner from the first accepting team's confirmation, and GeneratorId and TimeInBuffer from the popped request |
| `Dispatch.StepPopFailure` | internal/logic/logic.go:103-117 | after a failed pop only team queries follow, until one reports ServiceSize teams; then TotalTime is set to the elapsed time and the loop stops; no offer, no record |
| `Dispatch.StepRecordsAccepted` | internal/logic/logic.go:132-149 | an iteration appends exactly the record of its acceptance (first accepting team's confirmation merged with the popped request), or nothing |
| `Dispatch.StepPollsAfterCancelledPop` | internal/logic/logic.go:103-111 | after a failed pop, polls that all fail leave the loop polling, with no change to the state, however many there are |
| `Dispatch.ScenarioFirstTeamAccepts` | internal/logic/logic.go:121-148 | teams [7, 9] with 7 accepting: one record, and team 9 is never offered the request |
| `Dispatch.ScenarioSecondTeamAccepts` | internal/logic/logic.go:121-148 | teams [7, 9] with 7 rejecting and 9 accepting: both are offered the request in that order, and one record is appended |
| `Dispatch.RunAppendOnly` | internal/logic/logic.go:138-145 | over a run ReqsStats only grows at the end, by at most one record per iteration, and earlier records stay as they were; TeamsStats is unchanged; a run that has not stopped has used every observation |
| `Dispatch.RunTotalTimeOnce` | internal/logic/logic.go:81-116 | TotalTime changes only when the loop stops after a failed pop, and then holds the elapsed time of that last iteration; a cancelled or still-running loop leaves it as it was |
| `Dispatch.RunStopsForGood` | internal/logic/logic.go:81-116 | once the run has ended (cancelled, drained, or still polling when its poll replies ran out), later observations add no call and change nothing |
| `Dispatch.RunRecordsAccepted` | internal/logic/logic.go:132-149 | over a run ReqsStats grows by exactly the records of the accepted iterations it went through, in iteration order |
| `Dispatch.RunWithoutTeams` | internal/logic/logic.go:86-101 | iterations that find no idle team only repeat the team query, one per iteration, and never change the state |

## Left out

- PDF layout and file output in CreateStatisticsReport (internal/logic/logic.go:162-170, 187-239): this is presentation through the gofpdf library. A failed file write is therefore not modelled.
- The load percentage (internal/logic/logic.go:202): it is float division, and it divides by zero when TotalTime is 0.
- Sleeps and backoffs, the generator goroutine (StartGenerator), the `sync.WaitGroup` and logging. These are timing and concurrency. Each iteration is one atomic step, and cancellation is a flag read at the top of the loop.
- The first GetAvailableTeams call (internal/logic/logic.go:57-58): it only sizes the capacity of the new `TeamsStats` slice. It is not in the call trace. `LaunchDispatcher` models only the reset of `TeamsStats` to empty (line 59). That call also reads `resp.TeamsIds` without checking the error. A failed first call would dereference a nil response; the model does not cover this.
- Unbounded looping: the outer loop and the polling loop are unbounded in Go. The model feeds them finite sequences of observations and poll replies. Running out of observations gives the outcome `Continue`. Running out of poll replies gives `AwaitingIdleTeams`, meaning the Go loop would still be polling.
- The ProceedCleaning oracle is a function of the call's argument. So within one iteration, a team id listed twice gets the same answer both times.
- The rest of each protobuf message: only the fields the dispatcher reads or sends are modelled. The generated message definitions are not part of this model. So the widths of `ClientId` and `CleaningType` (here `U64` and `U32`) are assumed.
- Configuration loading (configs/config.go), gRPC dialing (pkg/connections) and the RPC handlers (internal/delivery) do no dispatch logic.
