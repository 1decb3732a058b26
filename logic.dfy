/**
 * The dispatcher of internal/logic/logic.go: its statistics fields, the loop
 * of LaunchDispatcher and the team snapshot of CreateStatisticsReport, as
 * imperative code proved against the functions of module Dispatch.
 */
module Logic {
  import opened Wrappers
  import opened Dto
  import opened Services
  import opened Dispatch

  /**
   * Offers the popped request to the teams in the order given and stops at the
   * first that accepts (internal/logic/logic.go:121-149). Returns the record to
   * append, if a team accepted, and the ProceedCleaning arguments sent.
   */
  method OfferToTeams(popped: BufferRequest, teams: seq<U64>, proceed: ProceedCleaningIn -> Reply<ProceedCleaningOut>)
    returns (stat: Option<RequestStat>, sent: seq<ProceedCleaningIn>)
    ensures |sent| <= |teams|
    ensures forall i :: 0 <= i < |sent| ==> sent[i] == Offer(popped, teams[i])
    ensures stat.Some? <==> exists i :: 0 <= i < |teams| && AcceptsAt(popped, teams, proceed, i)
    ensures stat.None? ==> |sent| == |teams|
    ensures stat.Some? ==>
      && 1 <= |sent|
      && AcceptsAt(popped, teams, proceed, |sent| - 1)
      && (forall i :: 0 <= i < |sent| - 1 ==> !AcceptsAt(popped, teams, proceed, i))
      && stat.value == MakeStat(popped, proceed(sent[|sent| - 1]).value)
  {
    stat, sent := None, [];
    var i := 0;
    while i < |teams|
      invariant i <= |teams|
      invariant |sent| == i
      invariant forall j :: 0 <= j < i ==> sent[j] == Offer(popped, teams[j])
      invariant forall j :: 0 <= j < i ==> !AcceptsAt(popped, teams, proceed, j)
    {
      var arg := Offer(popped, teams[i]);
      var reply := proceed(arg);
      sent := sent + [arg];
      if reply.Success? {
        assert AcceptsAt(popped, teams, proceed, i);
        stat := Some(MakeStat(popped, reply.value));
        return;
      }
      i := i + 1;
    }
  }

  /**
   * The polling loop after a failed PopTop (internal/logic/logic.go:105-111):
   * queries the idle teams until a reply lists exactly ServiceSize of them. A
   * failed query counts as none. Returns the number of queries issued, and
   * whether the count was reached before the observed replies ran out.
   */
  method AwaitAllIdle(polls: seq<Reply<seq<U64>>>) returns (issued: nat, idle: bool)
    ensures issued <= |polls|
    ensures idle ==> 1 <= issued && TeamCount(polls[issued - 1]) == ServiceSize
    ensures !idle ==> issued == |polls|
    ensures forall j :: 0 <= j < issued && (!idle || j < issued - 1) ==> TeamCount(polls[j]) != ServiceSize
  {
    var teamsAmount := 0;
    issued := 0;
    while teamsAmount != ServiceSize && issued < |polls|
      invariant issued <= |polls|
      invariant issued == 0 ==> teamsAmount == 0
      invariant issued > 0 ==> teamsAmount == TeamCount(polls[issued - 1])
      invariant forall j :: 0 <= j < issued - 1 ==> TeamCount(polls[j]) != ServiceSize
      decreases |polls| - issued
    {
      teamsAmount := TeamCount(polls[issued]);
      issued := issued + 1;
    }
    idle := teamsAmount == ServiceSize;
  }

  class Dispatcher {
    var ReqsStats: seq<RequestStat>
    var TeamsStats: seq<TeamStat>
    var TotalTime: Option<Duration>

    /** The statistics fields as a value of the state machine. */
    function Snapshot(): State
      reads this
    {
      State(ReqsStats, TeamsStats, TotalTime)
    }

    /** NewDispatcher: no request recorded, no team snapshot, TotalTime never set. */
    constructor ()
      ensures ReqsStats == [] && TeamsStats == [] && TotalTime == None
    {
      ReqsStats := [];
      TeamsStats := [];
      TotalTime := None;
    }

    /** One iteration of the dispatch loop; returns how it ended and the calls it issued. */
    method Iterate(o: Observation) returns (outcome: Outcome, calls: seq<Call>)
      modifies this
      ensures StepResult(Snapshot(), outcome, calls) == Step(old(Snapshot()), o)
    {
      if o.cancelled {
        return Cancelled, [];
      }
      calls := [GetAvailableTeams];
      if o.teams.Failure? {
        return Continue, calls;
      }
      var teams := o.teams.value;
      if |teams| == 0 {
        return Continue, calls;
      }
      calls := calls + [PopTop];
      if o.pop.Failure? {
        var issued, idle := AwaitAllIdle(o.polls);
        calls := calls + Polls(issued);
        if idle {
          TotalTime := Some(o.elapsed);
          return Drained, calls;
        }
        return AwaitingIdleTeams, calls;
      }
      var popped := o.pop.value.GetReq();
      var stat, sent := OfferToTeams(popped, teams, o.proceed);
      calls := calls + Offers(popped, teams[..|sent|]);
      if stat.Some? {
        ReqsStats := ReqsStats + [stat.value];
      }
      return Continue, calls;
    }

    /**
     * LaunchDispatcher: resets the team snapshot to empty, then runs the loop
     * over the observed iterations until one of them stops it.
     */
    method LaunchDispatcher(obs: seq<Observation>) returns (outcome: Outcome, iterations: nat, calls: seq<Call>)
      modifies this
      ensures RunResult(Snapshot(), outcome, iterations, calls) == Run(old(Snapshot()).(teamsStats := []), obs)
    {
      TeamsStats := [];
      ghost var start := Snapshot();
      outcome, iterations, calls := Continue, 0, [];
      while outcome == Continue && iterations < |obs|
        invariant iterations <= |obs|
        invariant outcome == Continue ==> Run(start, obs) == Extend(iterations, calls, Run(Snapshot(), obs[iterations..]))
        invariant outcome != Continue ==> Run(start, obs) == RunResult(Snapshot(), outcome, iterations, calls)
        decreases |obs| - iterations
      {
        ghost var before := Snapshot();
        var out, c := Iterate(obs[iterations]);
        RunAdvance(start, obs, iterations, calls, before, StepResult(Snapshot(), out, c));
        outcome, iterations, calls := out, iterations + 1, calls + c;
      }
      if outcome == Continue {
        assert obs[iterations..] == [];
        assert calls + [] == calls;
      }
    }

    /**
     * The team snapshot of CreateStatisticsReport (internal/logic/logic.go:172-185):
     * on a failed GetTeamsStats returns its error and changes nothing; otherwise
     * appends one record per reported team, in order.
     */
    method CreateStatisticsReport(reply: Reply<seq<TeamInfo>>) returns (err: Option<RpcError>)
      modifies this
      ensures ReqsStats == old(ReqsStats) && TotalTime == old(TotalTime)
      ensures reply.Failure? ==> err == Some(reply.error) && TeamsStats == old(TeamsStats)
      ensures reply.Success? ==> err == None && TeamsStats == old(TeamsStats) + TeamStatsOf(reply.value)
    {
      if reply.Failure? {
        return Some(reply.error);
      }
      var teams := reply.value;
      for i := 0 to |teams|
        invariant ReqsStats == old(ReqsStats) && TotalTime == old(TotalTime)
        invariant TeamsStats == old(TeamsStats) + TeamStatsOf(teams[..i])
      {
        var team := teams[i];
        assert teams[..i + 1][..i] == teams[..i];
        TeamsStats := TeamsStats + [TeamStat(team.id, team.speed, team.processedRequests, team.totalBusyTime)];
      }
      assert teams[..|teams|] == teams;
      err := None;
    }
  }
}
