/** Entities shared by the scheduler's components: the wire records of
    src/app/utils/models.ts and the enumerations and constants of
    src/app/utils/constants.ts and src/app/utils/settings.ts. */
module Models {

  datatype Option<T> = None | Some(value: T)

  /** HTTP status code of a successful answer. */
  const OK: int := 200

  /** The protocol/build version a node reports in its heartbeat. */
  const VERSION: int := 1

  /** Interval units travel as one-letter codes; any other string is a unit
      the schedule arithmetic does not recognise. */
  type IntervalUnit = string
  const MINUTE: IntervalUnit := "m"
  const HOUR: IntervalUnit := "h"
  const DAY: IntervalUnit := "D"
  const MONTH: IntervalUnit := "M"

  datatype PeerStatus = ONLINE | OFFLINE | UNKNOWN | OLD_VERSION | DESYNC

  datatype Peer = Peer(host: string, status: PeerStatus)

  /** The voting round of a job: the integer votes collected so far and this
      node's own vote, if one has been drawn (timer handles are not modelled). */
  datatype CurrentJob = CurrentJob(votes: seq<int>, myVote: Option<int>)

  /** A fresh round: no votes and no own vote. */
  const FreshRound: CurrentJob := CurrentJob([], None)

  /** A scheduled job as the state handler and the HTTP handlers store it;
      `currentJob` is absent on jobs that arrived by a sync. */
  datatype Job = Job(
    id: int,
    endpoint: string,
    startTime: int,
    nextExecute: int,
    intervalValue: int,
    intervalUnit: IntervalUnit,
    currentJob: Option<CurrentJob>)

  /** Body of a state sync: peers, jobs, update time and the receiver's host
      (absent in the proposal, filled in per receiver when sent). */
  datatype BodySync = BodySync(p: seq<Peer>, j: seq<Job>, u: int, r: Option<string>)

  /** Body of an add-job request. */
  datatype BodyNewJob = BodyNewJob(
    endpoint: string,
    startTime: int,
    intervalValue: int,
    intervalUnit: IntervalUnit,
    updateTime: int)

  /** The outcome of pushing a state to one peer: an HTTP answer, or no
      answer at all (a transport error or the request timeout). */
  datatype SyncReply = Answered(code: int, data: string) | NoAnswer

  /** What `syncPeer` resolves with: whether the push succeeded, and the peer. */
  datatype ResponseSync = ResponseSync(success: bool, peer: Peer)

  /** Whether a peer's host differs from this node's own host; `myHost` is
      absent (null) until a sync tells the node who it is. */
  predicate IsOther(p: Peer, myHost: Option<string>)
  {
    myHost != Some(p.host)
  }
}
