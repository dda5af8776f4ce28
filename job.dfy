/** The `Job` class of src/app/job.ts: a job's schedule, the unique-maximum
    election over its collected votes, and the drawing of its own vote. */
module Jobs {
  import opened Models
  import AppHelpers

  /** How often `x` occurs in `s` (the length of `s.filter(v => v === x)`). */
  function CountOf(s: seq<int>, x: int): (n: nat)
    ensures n == multiset(s)[x]
    decreases |s|
  {
    if s == [] then 0
    else
      assert s == [s[0]] + s[1..];
      (if s[0] == x then 1 else 0) + CountOf(s[1..], x)
  }

  /** `getWinnerVote` of job.ts: the maximum vote if at least two votes were
      collected and the maximum occurs exactly once; otherwise no winner. */
  function WinnerVote(votes: seq<int>): (r: Option<int>)
    ensures |votes| < 2 ==> r.None?
    ensures r.Some? ==> r.value in votes && (forall v :: v in votes ==> v <= r.value) && multiset(votes)[r.value] == 1
    ensures r.Some? <==> |votes| >= 2 && exists w :: w in votes && (forall v :: v in votes ==> v <= w) && multiset(votes)[w] == 1
  {
    if |votes| < 2 then None
    else
      var top := AppHelpers.MaxVote(votes);
      if CountOf(votes, top.value) != 1 then None else Some(top.value)
  }

  /** A tie on the maximum, however many votes there are, means no winner. */
  lemma {:induction false} TieHasNoWinner(votes: seq<int>, i: nat, j: nat)
    requires i < j < |votes| && votes[i] == votes[j]
    requires forall v :: v in votes ==> v <= votes[i]
    ensures WinnerVote(votes).None?
  {
    var m := votes[i];
    assert votes == votes[..j] + [votes[j]] + votes[j + 1..];
    assert votes[i] in votes[..j];
    assert multiset(votes)[m] == multiset(votes[..j])[m] + 1 + multiset(votes[j + 1..])[m];
    assert multiset(votes[..j])[m] >= 1;
    var top := AppHelpers.MaxVote(votes);
    assert votes[i] in votes;
    assert top.value == m;
  }

  /** The fields `serialize` copies: everything but the voting round. */
  datatype JobInterface = JobInterface(
    id: int,
    endpoint: string,
    startTime: int,
    intervalValue: int,
    intervalUnit: IntervalUnit,
    nextExecute: int)

  class Job {
    var id: int
    var endpoint: string
    var startTime: int
    var intervalValue: int
    var intervalUnit: IntervalUnit
    var nextExecute: int
    /** Never set by the constructor; the scheduler installs it. */
    var currentJob: Option<CurrentJob>

    /** `nextExecute || this.calculateExecuteTime(startTime)`: a missing or
        zero `nextExecute` is replaced by one interval after `startTime`. */
    constructor(id: int, endpoint: string, startTime: int, intervalValue: int, intervalUnit: IntervalUnit,
                nextExecute: Option<int>)
      ensures this.id == id && this.endpoint == endpoint && this.startTime == startTime
      ensures this.intervalValue == intervalValue && this.intervalUnit == intervalUnit
      ensures currentJob.None?
      ensures nextExecute.Some? && nextExecute.value != 0 ==> this.nextExecute == nextExecute.value
      ensures nextExecute.None? || nextExecute.value == 0 ==> this.nextExecute == CalculateExecuteTime(startTime)
    {
      this.id := id;
      this.endpoint := endpoint;
      this.startTime := startTime;
      this.intervalValue := intervalValue;
      this.intervalUnit := intervalUnit;
      this.nextExecute := if nextExecute.Some? && nextExecute.value != 0 then nextExecute.value
                          else AppHelpers.CalculateNewExecuteTime(startTime, intervalValue, intervalUnit);
      this.currentJob := None;
    }

    /** `startTime` plus one interval of this job. */
    function CalculateExecuteTime(startTime: int): (t: int)
      reads this
      ensures t - startTime == intervalValue * AppHelpers.UnitMillis(intervalUnit)
    {
      AppHelpers.CalculateNewExecuteTime(startTime, intervalValue, intervalUnit)
    }

    function GetWinnerVote(): (r: Option<int>)
      reads this
      requires currentJob.Some?
      ensures r == WinnerVote(currentJob.value.votes)
    {
      WinnerVote(currentJob.value.votes)
    }

    /** Draws this node's vote on the first call only and records it among the
        votes; later calls return the same vote and change nothing. */
    method GetMyVote(random: real) returns (v: int)
      requires currentJob.Some?
      requires 0.0 <= random < 1.0
      modifies this`currentJob
      ensures currentJob.Some?
      ensures old(currentJob.value.myVote).None? ==>
                0 <= v < 1000000000 && v == AppHelpers.GenerateVote(random) &&
                currentJob.value == CurrentJob(old(currentJob.value.votes) + [v], Some(v))
      ensures old(currentJob.value.myVote).Some? ==>
                v == old(currentJob.value.myVote.value) && currentJob == old(currentJob)
    {
      var round := currentJob.value;
      if round.myVote.None? {
        var drawn := AppHelpers.GenerateVote(random);
        round := CurrentJob(round.votes + [drawn], Some(drawn));
        currentJob := Some(round);
      }
      v := round.myVote.value;
    }

    function Serialize(): (s: JobInterface)
      reads this
      ensures s == JobInterface(id, endpoint, startTime, intervalValue, intervalUnit, nextExecute)
    {
      JobInterface(id, endpoint, startTime, intervalValue, intervalUnit, nextExecute)
    }
  }

  /** Asking twice yields one vote, recorded once. */
  method VoteIsDrawnOnce(job: Job, r1: real, r2: real) returns (first: int, second: int)
    requires job.currentJob == Some(FreshRound)
    requires 0.0 <= r1 < 1.0 && 0.0 <= r2 < 1.0
    modifies job
    ensures first == second && 0 <= first < 1000000000
    ensures job.currentJob == Some(CurrentJob([first], Some(first)))
  {
    first := job.GetMyVote(r1);
    assert FreshRound.votes + [first] == [first];
    second := job.GetMyVote(r2);
  }
}
