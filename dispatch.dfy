/**
 * The dispatch loop of internal/logic/logic.go as a state machine over an
 * abstract environment: one `Step` per iteration of the outer `for`/`select`
 * loop, and `Run` for a sequence of iterations. The dispatcher class in
 * module Logic is proved to behave as these functions say.
 */
module Dispatch {
  import opened Wrappers
  import opened Dto
  import opened Services

  /** The number of cleaning teams the dispatcher waits for before it stops (`serviceSize`). */
  const ServiceSize: nat := 10

  /** The dispatcher's statistics fields; `totalTime` is None until it is first assigned. */
  datatype State = State(
    reqsStats: seq<RequestStat>,
    teamsStats: seq<TeamStat>,
    totalTime: Option<Duration>)

  /**
   * How an iteration ends. Continue: the loop goes round again. Cancelled: the
   * context was done. Drained: PopTop failed and all teams became idle.
   * AwaitingIdleTeams: PopTop failed and the observed polls never saw all teams idle.
   */
  datatype Outcome = Continue | Cancelled | Drained | AwaitingIdleTeams

  /**
   * What the environment does during one iteration: whether the context is
   * cancelled at the top of the loop, the reply to GetAvailableTeams, the reply
   * to PopTop, how the cleaning service answers each ProceedCleaning, the
   * replies to the polls issued after a failed PopTop, and the time elapsed
   * since the loop was launched when that iteration ends.
   */
  datatype Observation = Observation(
    cancelled: bool,
    teams: Reply<seq<U64>>,
    pop: Reply<PopTopOut>,
    proceed: ProceedCleaningIn -> Reply<ProceedCleaningOut>,
    polls: seq<Reply<seq<U64>>>,
    elapsed: Duration)

  datatype StepResult = StepResult(state: State, outcome: Outcome, calls: seq<Call>)

  datatype RunResult = RunResult(state: State, outcome: Outcome, iterations: nat, calls: seq<Call>)

  /** The number of team ids in a GetAvailableTeams reply; a failed call reads as none. */
  function TeamCount(r: Reply<seq<U64>>): nat {
    if r.Success? then |r.value| else 0
  }

  /** The ProceedCleaning argument that offers the popped request to one team. */
  function Offer(popped: BufferRequest, team: U64): ProceedCleaningIn {
    ProceedCleaningIn(CleaningOrder(popped.id, popped.clientId, popped.priority, popped.cleaningType), team)
  }

  /** The statistics record for an accepted request: cleaner fields merged with buffer fields. */
  function MakeStat(popped: BufferRequest, confirmed: ProceedCleaningOut): RequestStat {
    var c := confirmed.GetReq();
    RequestStat(c.id, popped.generatorId, c.teamId, c.priority, c.timeInCleaner, popped.timeInBuffer)
  }

  /** True when the cleaning service accepts the popped request for the team at position i. */
  predicate AcceptsAt(popped: BufferRequest, teams: seq<U64>, proceed: ProceedCleaningIn -> Reply<ProceedCleaningOut>, i: nat)
    requires i < |teams|
  {
    proceed(Offer(popped, teams[i])).Success?
  }

  /** The position of the first team that accepts the popped request, if any. */
  function FirstAccepting(popped: BufferRequest, teams: seq<U64>, proceed: ProceedCleaningIn -> Reply<ProceedCleaningOut>): (r: Option<nat>)
    ensures r.Some? ==> r.value < |teams| && AcceptsAt(popped, teams, proceed, r.value)
    ensures forall j :: 0 <= j < |teams| && (r.None? || j < r.value) ==> !AcceptsAt(popped, teams, proceed, j)
  {
    if teams == [] then None
    else if AcceptsAt(popped, teams, proceed, 0) then Some(0)
    else
      assert forall j :: 1 <= j < |teams| ==>
        AcceptsAt(popped, teams, proceed, j) == AcceptsAt(popped, teams[1..], proceed, j - 1);
      match FirstAccepting(popped, teams[1..], proceed)
      case None => None
      case Some(k) => Some(k + 1)
  }

  /** The position of the first poll that reports ServiceSize idle teams, if any. */
  function FirstIdlePoll(polls: seq<Reply<seq<U64>>>): (r: Option<nat>)
    ensures r.Some? ==> r.value < |polls| && TeamCount(polls[r.value]) == ServiceSize
    ensures forall j :: 0 <= j < |polls| && (r.None? || j < r.value) ==> TeamCount(polls[j]) != ServiceSize
  {
    if polls == [] then None
    else if TeamCount(polls[0]) == ServiceSize then Some(0)
    else
      assert forall j :: 1 <= j < |polls| ==> polls[1..][j - 1] == polls[j];
      match FirstIdlePoll(polls[1..])
      case None => None
      case Some(k) => Some(k + 1)
  }

  /** The ProceedCleaning calls that offer the popped request to the given teams, in order. */
  function Offers(popped: BufferRequest, teams: seq<U64>): seq<Call> {
    seq(|teams|, i requires 0 <= i < |teams| => ProceedCleaning(Offer(popped, teams[i])))
  }

  /** n GetAvailableTeams calls in a row. */
  function Polls(n: nat): seq<Call> {
    seq(n, i => GetAvailableTeams)
  }

  /** One iteration of the dispatch loop (internal/logic/logic.go:80-152). */
  function Step(s: State, o: Observation): StepResult {
    if o.cancelled then
      StepResult(s, Cancelled, [])
    else if TeamCount(o.teams) == 0 then
      StepResult(s, Continue, [GetAvailableTeams])
    else if o.pop.Failure? then
      match FirstIdlePoll(o.polls)
      case Some(k) => StepResult(s.(totalTime := Some(o.elapsed)), Drained, [GetAvailableTeams, PopTop] + Polls(k + 1))
      case None => StepResult(s, AwaitingIdleTeams, [GetAvailableTeams, PopTop] + Polls(|o.polls|))
    else
      var popped := o.pop.value.GetReq();
      var teams := o.teams.value;
      match FirstAccepting(popped, teams, o.proceed)
      case Some(k) =>
        StepResult(s.(reqsStats := s.reqsStats + [MakeStat(popped, o.proceed(Offer(popped, teams[k])).value)]),
                   Continue, [GetAvailableTeams, PopTop] + Offers(popped, teams[..k + 1]))
      case None =>
        StepResult(s, Continue, [GetAvailableTeams, PopTop] + Offers(popped, teams))
  }

  /** Adds n earlier iterations and their calls in front of a run. */
  function Extend(n: nat, calls: seq<Call>, r: RunResult): RunResult {
    RunResult(r.state, r.outcome, r.iterations + n, calls + r.calls)
  }

  /** The dispatch loop over a finite sequence of iterations, stopping at the first that does not continue. */
  function Run(s: State, obs: seq<Observation>): RunResult
    decreases |obs|
  {
    if obs == [] then RunResult(s, Continue, 0, [])
    else
      var st := Step(s, obs[0]);
      if st.outcome == Continue then Extend(1, st.calls, Run(st.state, obs[1..]))
      else RunResult(st.state, st.outcome, 1, st.calls)
  }

  /** True when the iteration pops a request and some offered team accepts it. */
  predicate Accepted(o: Observation) {
    && !o.cancelled
    && TeamCount(o.teams) > 0
    && o.pop.Success?
    && exists i :: 0 <= i < |o.teams.value| && AcceptsAt(o.pop.value.GetReq(), o.teams.value, o.proceed, i)
  }

  /** The record an accepted iteration yields: built from the first accepting team's confirmation. */
  function AcceptedStat(o: Observation): seq<RequestStat> {
    if Accepted(o) then
      var popped := o.pop.value.GetReq();
      var teams := o.teams.value;
      var k := FirstAccepting(popped, teams, o.proceed).value;
      [MakeStat(popped, o.proceed(Offer(popped, teams[k])).value)]
    else []
  }

  /** The records of the accepted iterations among obs, in iteration order. */
  function AcceptedStats(obs: seq<Observation>): seq<RequestStat>
    decreases |obs|
  {
    if obs == [] then [] else AcceptedStat(obs[0]) + AcceptedStats(obs[1..])
  }

  /** The team statistics built from a GetTeamsStats reply, one per team in order. */
  function TeamStatsOf(teams: seq<TeamInfo>): (r: seq<TeamStat>)
    ensures |r| == |teams|
    ensures forall i :: 0 <= i < |teams| ==>
      r[i] == TeamStat(teams[i].id, teams[i].speed, teams[i].processedRequests, teams[i].totalBusyTime)
  {
    if teams == [] then []
    else
      var last := teams[|teams| - 1];
      TeamStatsOf(teams[..|teams| - 1]) + [TeamStat(last.id, last.speed, last.processedRequests, last.totalBusyTime)]
  }

  // ---------------------------------------------------------------------------
  // One iteration
  // ---------------------------------------------------------------------------

  /** A cancelled context ends the loop at once: no call, no change, TotalTime not set. */
  lemma StepCancelled(s: State, o: Observation)
    requires o.cancelled
    ensures Step(s, o) == StepResult(s, Cancelled, [])
  {
  }

  /** A failed or empty team query issues nothing after it and changes nothing. */
  lemma StepWithoutTeams(s: State, o: Observation)
    requires !o.cancelled && TeamCount(o.teams) == 0
    ensures Step(s, o) == StepResult(s, Continue, [GetAvailableTeams])
    ensures PopTop !in Step(s, o).calls
    ensures forall c :: c in Step(s, o).calls ==> !c.ProceedCleaning?
  {
  }

  /**
   * After a successful pop the teams are offered the request in the order
   * returned; the offers stop at the first team that accepts, so later teams
   * are never contacted, and they cover the whole list only if none accepts.
   */
  lemma StepOffersInOrder(s: State, o: Observation)
    requires !o.cancelled && TeamCount(o.teams) > 0 && o.pop.Success?
    ensures var r := Step(s, o);
            var popped := o.pop.value.GetReq();
            var teams := o.teams.value;
            var n := |r.calls| - 2;
            && r.outcome == Continue
            && r.calls[..2] == [GetAvailableTeams, PopTop]
            && 1 <= n <= |teams|
            && (forall i :: 0 <= i < n ==> r.calls[i + 2] == ProceedCleaning(Offer(popped, teams[i])))
            && (forall i :: 0 <= i < n - 1 ==> !AcceptsAt(popped, teams, o.proceed, i))
            && (AcceptsAt(popped, teams, o.proceed, n - 1) || n == |teams|)
  {
  }

  /**
   * An iteration appends at most one request record and modifies none: exactly
   * one when some team accepted, none otherwise (the rejected request is dropped).
   */
  lemma StepAppendsAtMostOne(s: State, o: Observation)
    ensures var r := Step(s, o).state;
            && |r.reqsStats| == |s.reqsStats| + (if Accepted(o) then 1 else 0)
            && r.reqsStats[..|s.reqsStats|] == s.reqsStats
            && r.teamsStats == s.teamsStats
  {
    if !o.cancelled && TeamCount(o.teams) > 0 && o.pop.Success? {
      var popped := o.pop.value.GetReq();
      var teams := o.teams.value;
      match FirstAccepting(popped, teams, o.proceed)
      case Some(k) =>
        assert Accepted(o);
      case None =>
        assert !Accepted(o);
    }
  }

  /**
   * The record appended for an accepted request takes its id, team, priority
   * and cleaning time from the first accepting team's confirmation, and its
   * generator and buffer time from the popped request.
   */
  lemma StepRecordProvenance(s: State, o: Observation)
    requires Accepted(o)
    ensures var popped := o.pop.value.GetReq();
            var teams := o.teams.value;
            var r := Step(s, o).state;
            && FirstAccepting(popped, teams, o.proceed).Some?
            && var k := FirstAccepting(popped, teams, o.proceed).value;
               var c := o.proceed(Offer(popped, teams[k])).value.GetReq();
               var rec := r.reqsStats[|r.reqsStats| - 1];
               && |r.reqsStats| == |s.reqsStats| + 1
               && rec.id == c.id && rec.teamId == c.teamId
               && rec.priority == c.priority && rec.timeInCleaner == c.timeInCleaner
               && rec.generatorId == popped.generatorId && rec.timeInBuffer == popped.timeInBuffer
  {
    var popped := o.pop.value.GetReq();
    var i :| 0 <= i < |o.teams.value| && AcceptsAt(popped, o.teams.value, o.proceed, i);
  }

  /**
   * A failed pop ends the work: polls follow until one reports ServiceSize idle
   * teams; then TotalTime is set to the elapsed time and the loop stops. No
   * request is offered, and no record is appended.
   */
  lemma StepPopFailure(s: State, o: Observation)
    requires !o.cancelled && TeamCount(o.teams) > 0 && o.pop.Failure?
    ensures var r := Step(s, o);
            var n := |r.calls| - 2;
            && r.calls == [GetAvailableTeams, PopTop] + Polls(n)
            && (forall c :: c in r.calls ==> !c.ProceedCleaning?)
            && r.state.reqsStats == s.reqsStats && r.state.teamsStats == s.teamsStats
            && n <= |o.polls|
            && (r.outcome == Drained <==> exists j :: 0 <= j < |o.polls| && TeamCount(o.polls[j]) == ServiceSize)
            && (r.outcome == Drained ==>
                  && 1 <= n && TeamCount(o.polls[n - 1]) == ServiceSize
                  && (forall j :: 0 <= j < n - 1 ==> TeamCount(o.polls[j]) != ServiceSize)
                  && r.state.totalTime == Some(o.elapsed))
            && (r.outcome != Drained ==>
                  r.outcome == AwaitingIdleTeams && n == |o.polls| && r.state.totalTime == s.totalTime)
  {
    match FirstIdlePoll(o.polls)
    case Some(k) =>
    case None =>
      assert forall j :: 0 <= j < |o.polls| ==> TeamCount(o.polls[j]) != ServiceSize;
  }

  /**
   * Teams 7 and 9 are idle and team 7 accepts the popped request: one record
   * is appended and team 9 is never offered the request.
   */
  lemma ScenarioFirstTeamAccepts(s: State, popped: BufferRequest, confirmed: CleanedRequest, elapsed: Duration)
    ensures var o := Observation(false, Success([7, 9]), Success(PopTopOut(Some(popped))),
                                 _ => Success(ProceedCleaningOut(Some(confirmed))), [], elapsed);
            var r := Step(s, o);
            && r.outcome == Continue
            && r.calls == [GetAvailableTeams, PopTop, ProceedCleaning(Offer(popped, 7))]
            && r.state.reqsStats == s.reqsStats + [RequestStat(confirmed.id, popped.generatorId, confirmed.teamId,
                                                               confirmed.priority, confirmed.timeInCleaner, popped.timeInBuffer)]
  {
    var o := Observation(false, Success([7, 9]), Success(PopTopOut(Some(popped))),
                         _ => Success(ProceedCleaningOut(Some(confirmed))), [], elapsed);
    assert AcceptsAt(popped, [7, 9], o.proceed, 0);
    assert [7, 9][..1] == [7];
  }

  /**
   * Teams 7 and 9 are idle, team 7 rejects and team 9 accepts: both are
   * offered the request in that order and exactly one record is appended.
   */
  lemma ScenarioSecondTeamAccepts(s: State, popped: BufferRequest, confirmed: CleanedRequest, err: RpcError, elapsed: Duration)
    ensures var o := Observation(false, Success([7, 9]), Success(PopTopOut(Some(popped))),
                                 (arg: ProceedCleaningIn) =>
                                   if arg.teamId == 9 then Success(ProceedCleaningOut(Some(confirmed))) else Failure(err),
                                 [], elapsed);
            var r := Step(s, o);
            && r.outcome == Continue
            && r.calls == [GetAvailableTeams, PopTop, ProceedCleaning(Offer(popped, 7)), ProceedCleaning(Offer(popped, 9))]
            && r.state.reqsStats == s.reqsStats + [RequestStat(confirmed.id, popped.generatorId, confirmed.teamId,
                                                               confirmed.priority, confirmed.timeInCleaner, popped.timeInBuffer)]
  {
    var o := Observation(false, Success([7, 9]), Success(PopTopOut(Some(popped))),
                         (arg: ProceedCleaningIn) =>
                           if arg.teamId == 9 then Success(ProceedCleaningOut(Some(confirmed))) else Failure(err),
                         [], elapsed);
    assert !AcceptsAt(popped, [7, 9], o.proceed, 0);
    assert AcceptsAt(popped, [7, 9], o.proceed, 1);
    assert [7, 9][..2] == [7, 9];
  }

  /**
   * A cancellation that lands after the team query makes PopTop fail, which
   * takes the end-of-work branch; the polls then fail too and count as zero
   * idle teams, so however many of them there are the loop never stops.
   */
  lemma StepPollsAfterCancelledPop(s: State, o: Observation)
    requires !o.cancelled && TeamCount(o.teams) > 0 && o.pop.Failure?
    requires forall j :: 0 <= j < |o.polls| ==> o.polls[j].Failure?
    ensures Step(s, o) == StepResult(s, AwaitingIdleTeams, [GetAvailableTeams, PopTop] + Polls(|o.polls|))
  {
  }

  /** An iteration appends exactly the record of its acceptance, if it has one. */
  lemma StepRecordsAccepted(s: State, o: Observation)
    ensures Step(s, o).state.reqsStats == s.reqsStats + AcceptedStat(o)
  {
    StepAppendsAtMostOne(s, o);
    if Accepted(o) {
      StepRecordProvenance(s, o);
    } else {
      var r := Step(s, o).state.reqsStats;
      assert r == r[..|s.reqsStats|];
    }
  }

  // ---------------------------------------------------------------------------
  // Whole runs
  // ---------------------------------------------------------------------------

  /**
   * Over a run the request records only grow at the end, by at most one per
   * iteration; the team statistics are untouched; and the run consumes every
   * observation unless it stopped.
   */
  lemma {:induction false} RunAppendOnly(s: State, obs: seq<Observation>)
    ensures var r := Run(s, obs);
            && r.iterations <= |obs|
            && (r.outcome == Continue ==> r.iterations == |obs|)
            && |s.reqsStats| <= |r.state.reqsStats| <= |s.reqsStats| + r.iterations
            && r.state.reqsStats[..|s.reqsStats|] == s.reqsStats
            && r.state.teamsStats == s.teamsStats
    decreases |obs|
  {
    if obs != [] {
      StepAppendsAtMostOne(s, obs[0]);
      var st := Step(s, obs[0]);
      if st.outcome == Continue {
        RunAppendOnly(st.state, obs[1..]);
        var r := Run(st.state, obs[1..]);
        assert r.state.reqsStats[..|st.state.reqsStats|] == st.state.reqsStats;
        assert r.state.reqsStats[..|s.reqsStats|] == r.state.reqsStats[..|st.state.reqsStats|][..|s.reqsStats|];
      }
    }
  }

  /**
   * TotalTime is set at most once: a run that did not drain the buffer leaves it
   * as it was (cancellation included), and a drained run sets it to the elapsed
   * time of its last iteration.
   */
  lemma {:induction false} RunTotalTimeOnce(s: State, obs: seq<Observation>)
    ensures var r := Run(s, obs);
            && (r.outcome != Drained ==> r.state.totalTime == s.totalTime)
            && (r.outcome == Drained ==>
                  1 <= r.iterations <= |obs| && r.state.totalTime == Some(obs[r.iterations - 1].elapsed))
    decreases |obs|
  {
    if obs != [] {
      var st := Step(s, obs[0]);
      if st.outcome == Continue {
        RunTotalTimeOnce(st.state, obs[1..]);
        RunAppendOnly(st.state, obs[1..]);
        var r := Run(st.state, obs[1..]);
        if r.outcome == Drained {
          assert obs[1..][r.iterations - 1] == obs[r.iterations];
        }
      }
    }
  }

  /**
   * Once the run has ended (cancelled, drained, or still polling when its poll
   * replies ran out), later observations add no call and change nothing.
   */
  lemma {:induction false} RunStopsForGood(s: State, obs: seq<Observation>, more: seq<Observation>)
    requires Run(s, obs).outcome != Continue
    ensures Run(s, obs + more) == Run(s, obs)
    decreases |obs|
  {
    assert obs != [];
    assert (obs + more)[0] == obs[0];
    var st := Step(s, obs[0]);
    if st.outcome == Continue {
      assert (obs + more)[1..] == obs[1..] + more;
      RunStopsForGood(st.state, obs[1..], more);
    }
  }

  /**
   * Over a run the request records grow by exactly the records of the accepted
   * iterations it went through, in the order of those iterations.
   */
  lemma {:induction false} RunRecordsAccepted(s: State, obs: seq<Observation>)
    ensures var r := Run(s, obs);
            r.iterations <= |obs| && r.state.reqsStats == s.reqsStats + AcceptedStats(obs[..r.iterations])
    decreases |obs|
  {
    if obs != [] {
      var st := Step(s, obs[0]);
      StepRecordsAccepted(s, obs[0]);
      if st.outcome == Continue {
        RunRecordsAccepted(st.state, obs[1..]);
        var r := Run(st.state, obs[1..]);
        var n := r.iterations;
        var prefix := obs[..n + 1];
        assert prefix[0] == obs[0];
        assert prefix[1..] == obs[1..][..n];
        assert AcceptedStats(prefix) == AcceptedStat(obs[0]) + AcceptedStats(obs[1..][..n]);
        AppendAssoc(s.reqsStats, AcceptedStat(obs[0]), AcceptedStats(obs[1..][..n]));
      } else {
        var prefix := obs[..1];
        assert prefix[0] == obs[0];
        assert prefix[1..] == [];
        assert AcceptedStats(prefix) == AcceptedStat(obs[0]) + [];
      }
    }
  }

  /** Moves the loop of LaunchDispatcher one iteration further through a run. */
  lemma RunAdvance(start: State, obs: seq<Observation>, i: nat, calls: seq<Call>, s: State, st: StepResult)
    requires i < |obs|
    requires Run(start, obs) == Extend(i, calls, Run(s, obs[i..]))
    requires st == Step(s, obs[i])
    ensures st.outcome == Continue ==> Run(start, obs) == Extend(i + 1, calls + st.calls, Run(st.state, obs[i + 1..]))
    ensures st.outcome != Continue ==> Run(start, obs) == RunResult(st.state, st.outcome, i + 1, calls + st.calls)
  {
    RunFirstStep(s, obs[i..]);
    assert obs[i..][0] == obs[i];
    assert obs[i..][1..] == obs[i + 1..];
    if st.outcome == Continue {
      AppendAssoc(calls, st.calls, Run(st.state, obs[i + 1..]).calls);
    }
  }

  lemma AppendAssoc<T>(a: seq<T>, b: seq<T>, c: seq<T>)
    ensures a + (b + c) == (a + b) + c
  {
  }

  /** Unfolds the first iteration of a run. */
  lemma RunFirstStep(s: State, obs: seq<Observation>)
    requires obs != []
    ensures var st := Step(s, obs[0]);
            Run(s, obs) == if st.outcome == Continue then Extend(1, st.calls, Run(st.state, obs[1..]))
                           else RunResult(st.state, st.outcome, 1, st.calls)
  {
  }

  /**
   * Iterations that find no idle team keep the loop polling forever: one team
   * query each, no pop, no offer, and the state never changes.
   */
  lemma {:induction false} RunWithoutTeams(s: State, obs: seq<Observation>)
    requires forall i :: 0 <= i < |obs| ==> !obs[i].cancelled && TeamCount(obs[i].teams) == 0
    ensures Run(s, obs) == RunResult(s, Continue, |obs|, Polls(|obs|))
    decreases |obs|
  {
    if obs != [] {
      RunWithoutTeams(s, obs[1..]);
      assert [GetAvailableTeams] + Polls(|obs| - 1) == Polls(|obs|);
    }
  }
}
