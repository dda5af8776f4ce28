/** The earlier, self-contained server of src/app/app.ts: the state effects
    of its SYNC, ADD_NEW_PEER, REMOVE_PEER, ADD_NEW_JOB, REMOVE_JOB, VOTE and
    DONE handlers, its heartbeat classification and its `handleJobDone`.
    Unlike the state handler, this server broadcasts to every other peer
    whatever its status. */
module App {
  import opened Models
  import opened Seqs
  import opened Peers
  import AppHelpers
  import State

  /** Every status: the handlers here do not filter the targets by status. */
  const ANY_STATUS: set<PeerStatus> := {ONLINE, OFFLINE, UNKNOWN, OLD_VERSION, DESYNC}

  /** An entry of `currentJobs`: the voting round of the job with that id. */
  datatype TrackedRound = TrackedRound(id: int, round: CurrentJob)

  /** The position of the first job with that id (`getJob`'s loop). */
  function IndexOfJob(jobs: seq<Job>, id: int): (r: Option<nat>)
    ensures r.None? <==> forall i :: 0 <= i < |jobs| ==> jobs[i].id != id
    ensures r.Some? ==> r.value < |jobs| && jobs[r.value].id == id &&
                        forall j :: 0 <= j < r.value ==> jobs[j].id != id
  {
    if jobs == [] then None
    else if jobs[0].id == id then Some(0)
    else
      var rest := IndexOfJob(jobs[1..], id);
      assert forall i :: 1 <= i < |jobs| ==> jobs[i] == jobs[1..][i - 1];
      if rest.None? then None else Some(rest.value + 1)
  }

  /** The position of the first tracked round with that id (`getCurrentJob`). */
  function IndexOfRound(rounds: seq<TrackedRound>, id: int): (r: Option<nat>)
    ensures r.None? <==> forall i :: 0 <= i < |rounds| ==> rounds[i].id != id
    ensures r.Some? ==> r.value < |rounds| && rounds[r.value].id == id &&
                        forall j :: 0 <= j < r.value ==> rounds[j].id != id
  {
    if rounds == [] then None
    else if rounds[0].id == id then Some(0)
    else
      var rest := IndexOfRound(rounds[1..], id);
      assert forall i :: 1 <= i < |rounds| ==> rounds[i] == rounds[1..][i - 1];
      if rest.None? then None else Some(rest.value + 1)
  }

  /** The position of the LAST peer with that host: the `filter` callback of
      REMOVE_PEER overwrites `peerToRemove` at every match. */
  function LastIndexOfHost(peers: seq<Peer>, host: string): (r: Option<nat>)
    ensures r.None? <==> forall i :: 0 <= i < |peers| ==> peers[i].host != host
    ensures r.Some? ==> r.value < |peers| && peers[r.value].host == host &&
                        forall j :: r.value < j < |peers| ==> peers[j].host != host
  {
    if peers == [] then None
    else if peers[|peers| - 1].host == host then Some(|peers| - 1)
    else LastIndexOfHost(peers[..|peers| - 1], host)
  }

  /** The position of the LAST job with that id (REMOVE_JOB's `jobToRemove`). */
  function LastIndexOfJob(jobs: seq<Job>, id: int): (r: Option<nat>)
    ensures r.None? <==> forall i :: 0 <= i < |jobs| ==> jobs[i].id != id
    ensures r.Some? ==> r.value < |jobs| && jobs[r.value].id == id &&
                        forall j :: r.value < j < |jobs| ==> jobs[j].id != id
  {
    if jobs == [] then None
    else if jobs[|jobs| - 1].id == id then Some(|jobs| - 1)
    else LastIndexOfJob(jobs[..|jobs| - 1], id)
  }

  /** `indexOf` of a found object, or -1 for `undefined`. */
  function PositionOrMinusOne(r: Option<nat>): int
  {
    if r.Some? then r.value else -1
  }

  /** REMOVE_PEER's broadcast goes to the other peers except every peer with
      the removed host. */
  function RemovalMask(peers: seq<Peer>, myHost: Option<string>, host: string): (m: seq<bool>)
    ensures |m| == |peers|
    ensures forall i :: 0 <= i < |peers| ==> (m[i] <==> IsOther(peers[i], myHost) && peers[i].host != host)
  {
    seq(|peers|, i requires 0 <= i < |peers| => IsOther(peers[i], myHost) && peers[i].host != host)
  }

  lemma RemovalOutcome(peers: seq<Peer>, myHost: Option<string>, host: string, replies: seq<SyncReply>)
    requires |replies| == |peers|
    ensures SyncPeers(Broadcast(peers, replies, RemovalMask(peers, myHost, host)), myHost) <==>
              exists i :: 0 <= i < |peers| && IsOther(peers[i], myHost) && peers[i].host != host &&
                          SyncSucceeded(replies[i])
    ensures !SyncPeers(Broadcast(peers, replies, RemovalMask(peers, myHost, host)), myHost) ==>
              Synced(peers, replies, RemovalMask(peers, myHost, host)) == peers
  {
    var mask := RemovalMask(peers, myHost, host);
    BroadcastAccepted(peers, replies, mask, myHost);
    if !SyncPeers(Broadcast(peers, replies, mask), myHost) {
      var after := Synced(peers, replies, mask);
      forall i | 0 <= i < |peers| ensures after[i] == peers[i] {
        if mask[i] {
          assert !SyncSucceeded(replies[i]);
        }
      }
    }
  }

  class ServerApp {
    const version: int
    var myHost: Option<string>
    var updateTime: int
    var peers: seq<Peer>
    var jobs: seq<Job>
    var currentJobs: seq<TrackedRound>

    constructor()
      ensures version == VERSION && myHost.None? && updateTime == 0
      ensures peers == [] && jobs == [] && currentJobs == []
    {
      version := VERSION;
      myHost := None;
      updateTime := 0;
      peers := [];
      jobs := [];
      currentJobs := [];
    }

    /** `getPeers`: the peers other than this node, in order. */
    function GetPeers(): (r: seq<Peer>)
      reads this
      ensures IsSubsequence(r, peers)
      ensures forall p :: p in r <==> p in peers && IsOther(p, myHost)
      ensures forall p :: multiset(r)[p] == if IsOther(p, myHost) then multiset(peers)[p] else 0
    {
      FilterOthers(peers, myHost)
    }

    /** SYNC: the pushed peers, jobs, update time and own host are adopted
        wholesale, and then the `for` loop sets EVERY peer whose host is the
        own host to ONLINE. */
    method HandleSync(data: BodySync)
      modifies this
      ensures jobs == data.j && updateTime == data.u && myHost == data.r
      ensures |peers| == |data.p|
      ensures forall i :: 0 <= i < |peers| ==>
                peers[i] == if Some(data.p[i].host) == data.r then Peer(data.p[i].host, ONLINE) else data.p[i]
      ensures currentJobs == old(currentJobs)
    {
      peers := data.p;
      jobs := data.j;
      updateTime := data.u;
      myHost := data.r;
      for i := 0 to |peers|
        invariant |peers| == |data.p| && myHost == data.r
        invariant jobs == data.j && updateTime == data.u && currentJobs == old(currentJobs)
        invariant forall j :: 0 <= j < i ==>
                    peers[j] == if Some(data.p[j].host) == data.r then Peer(data.p[j].host, ONLINE) else data.p[j]
        invariant forall j :: i <= j < |peers| ==> peers[j] == data.p[j]
      {
        if Some(peers[i].host) == myHost {
          peers := peers[i := peers[i].(status := ONLINE)];
        }
      }
    }

    /** ADD_NEW_PEER. A known host leaves the state as it was. Otherwise the
        new peer starts UNKNOWN, the list with it appended is pushed to every
        other peer and to the new one; accepted, the new peer (ONLINE if its
        own push succeeded; a new peer with this node's own host is not
        pushed to and stays UNKNOWN) is appended, so its host occurs exactly once, and
        the update time is adopted; rejected, nothing changes. */
    method HandleAddNewPeer(host: string, updateTime: int, replies: seq<SyncReply>, newReply: SyncReply)
      returns (success: bool)
      requires |replies| == |peers|
      modifies this
      ensures (exists i :: 0 <= i < |old(peers)| && old(peers)[i].host == host) ==>
                !success && peers == old(peers) && this.updateTime == old(this.updateTime)
      ensures (forall i :: 0 <= i < |old(peers)| ==> old(peers)[i].host != host) ==>
                (success <==> Accepts(old(peers), old(myHost), ANY_STATUS, replies, -1) ||
                              (SyncSucceeded(newReply) && Some(host) != old(myHost)))
      ensures !success ==> peers == old(peers) && this.updateTime == old(this.updateTime)
      ensures success ==>
                this.updateTime == updateTime &&
                peers == Synced(old(peers), replies, ExcludeMask(old(peers), old(myHost), ANY_STATUS, -1)) +
                         [if Some(host) != old(myHost) then SyncPeer(Peer(host, UNKNOWN), newReply).peer
                          else Peer(host, UNKNOWN)]
      ensures success ==> |peers| == |old(peers)| + 1 && peers[|old(peers)|].host == host &&
                          forall i :: 0 <= i < |old(peers)| ==> peers[i].host != host
      ensures jobs == old(jobs) && myHost == old(myHost) && currentJobs == old(currentJobs)
    {
      if exists i :: 0 <= i < |peers| && peers[i].host == host {
        return false;
      }
      var newPeer := Peer(host, UNKNOWN);
      var mask := ExcludeMask(peers, myHost, ANY_STATUS, -1);
      var toExisting := Broadcast(peers, replies, mask);
      var toNew := SyncPeer(newPeer, newReply);
      // the new peer is a target exactly when its host is not the own host
      var responses := if IsOther(newPeer, myHost) then toExisting + [toNew] else toExisting;
      success := SyncPeers(responses, myHost);
      PushOutcome(peers, myHost, ANY_STATUS, replies, -1);
      SyncPeersAppend(toExisting, [toNew], myHost);
      var synced := Synced(peers, replies, mask);
      peers := synced;
      if success {
        peers := peers + [if IsOther(newPeer, myHost) then toNew.peer else newPeer];
        this.updateTime := updateTime;
      }
    }

    /** REMOVE_PEER. A host no peer has makes `kill(undefined)` throw before
        anything changes. Otherwise the list without that host is pushed to
        the other peers that do not have it; accepted, the LAST peer with that
        host (the one `peerToRemove` ends up naming) is removed and the update
        time adopted; rejected, nothing changes. */
    method HandleRemovePeer(host: string, updateTime: int, replies: seq<SyncReply>) returns (success: bool)
      requires |replies| == |peers|
      modifies this
      ensures LastIndexOfHost(old(peers), host).None? ==> !success && peers == old(peers)
      ensures LastIndexOfHost(old(peers), host).Some? ==>
                (success <==> exists i :: 0 <= i < |old(peers)| && IsOther(old(peers)[i], old(myHost)) &&
                                          old(peers)[i].host != host && SyncSucceeded(replies[i]))
      ensures !success ==> peers == old(peers) && this.updateTime == old(this.updateTime)
      ensures success ==>
                var k := LastIndexOfHost(old(peers), host).value;
                this.updateTime == updateTime &&
                peers == Splice(Synced(old(peers), replies, RemovalMask(old(peers), old(myHost), host)), k) &&
                |peers| == |old(peers)| - 1
      ensures jobs == old(jobs) && myHost == old(myHost) && currentJobs == old(currentJobs)
    {
      var toRemove := LastIndexOfHost(peers, host);
      if toRemove.None? {
        return false;
      }
      var mask := RemovalMask(peers, myHost, host);
      success := SyncPeers(Broadcast(peers, replies, mask), myHost);
      RemovalOutcome(peers, myHost, host, replies);
      peers := Synced(peers, replies, mask);
      if success {
        peers := Splice(peers, toRemove.value);
        this.updateTime := updateTime;
      }
    }

    /** `chooseNewJobId`: the least positive id no job uses. */
    method ChooseNewJobId() returns (id: int)
      ensures State.IsSmallestUnusedId(jobs, id)
      ensures id <= |jobs| + 1
    {
      id := State.SmallestUnusedId(jobs);
    }

    /** ADD_NEW_JOB: accepted, the job (least free id, first run one interval
        after its start) is appended together with a fresh tracked round and
        the update time is adopted; rejected, nothing but the statuses of
        peers whose push failed changes, and those do not change either. */
    method HandleAddNewJob(data: BodyNewJob, replies: seq<SyncReply>) returns (success: bool)
      requires |replies| == |peers|
      modifies this
      ensures success <==> Accepts(old(peers), old(myHost), ANY_STATUS, replies, -1)
      ensures !success ==> jobs == old(jobs) && currentJobs == old(currentJobs) &&
                           updateTime == old(updateTime) && peers == old(peers)
      ensures success ==>
                updateTime == data.updateTime &&
                peers == Synced(old(peers), replies, ExcludeMask(old(peers), old(myHost), ANY_STATUS, -1)) &&
                |jobs| == |old(jobs)| + 1 && jobs[..|old(jobs)|] == old(jobs) &&
                var job := jobs[|old(jobs)|];
                State.IsSmallestUnusedId(old(jobs), job.id) &&
                job == Job(job.id, data.endpoint, data.startTime,
                           AppHelpers.CalculateNewExecuteTime(data.startTime, data.intervalValue, data.intervalUnit),
                           data.intervalValue, data.intervalUnit, None) &&
                currentJobs == old(currentJobs) + [TrackedRound(job.id, FreshRound)]
      ensures myHost == old(myHost)
    {
      var id := ChooseNewJobId();
      var newJob := Job(id, data.endpoint, data.startTime,
                        AppHelpers.CalculateNewExecuteTime(data.startTime, data.intervalValue, data.intervalUnit),
                        data.intervalValue, data.intervalUnit, None);
      var mask := ExcludeMask(peers, myHost, ANY_STATUS, -1);
      success := SyncPeers(Broadcast(peers, replies, mask), myHost);
      PushOutcome(peers, myHost, ANY_STATUS, replies, -1);
      peers := Synced(peers, replies, mask);
      if success {
        jobs := jobs + [newJob];
        assert jobs[..|jobs| - 1] == old(jobs);
        updateTime := data.updateTime;
        currentJobs := currentJobs + [TrackedRound(id, FreshRound)];
      }
    }

    /** REMOVE_JOB: accepted, the job at `indexOf(jobToRemove)` is removed
        and the update time adopted. `jobToRemove` is the LAST job with that
        id; with none, `indexOf` gives -1 and the splice drops the last job. */
    method HandleRemoveJob(id: int, updateTime: int, replies: seq<SyncReply>) returns (success: bool)
      requires |replies| == |peers|
      modifies this
      ensures success <==> Accepts(old(peers), old(myHost), ANY_STATUS, replies, -1)
      ensures !success ==> jobs == old(jobs) && this.updateTime == old(this.updateTime) && peers == old(peers)
      ensures success ==>
                this.updateTime == updateTime &&
                peers == Synced(old(peers), replies, ExcludeMask(old(peers), old(myHost), ANY_STATUS, -1)) &&
                jobs == Splice(old(jobs), PositionOrMinusOne(LastIndexOfJob(old(jobs), id)))
      ensures success && LastIndexOfJob(old(jobs), id).Some? ==>
                var k := LastIndexOfJob(old(jobs), id).value;
                jobs == old(jobs)[..k] + old(jobs)[k + 1..]
      ensures success && LastIndexOfJob(old(jobs), id).None? && old(jobs) != [] ==>
                jobs == old(jobs)[..|old(jobs)| - 1]
      ensures myHost == old(myHost) && currentJobs == old(currentJobs)
    {
      var toRemove := LastIndexOfJob(jobs, id);
      var mask := ExcludeMask(peers, myHost, ANY_STATUS, -1);
      success := SyncPeers(Broadcast(peers, replies, mask), myHost);
      PushOutcome(peers, myHost, ANY_STATUS, replies, -1);
      peers := Synced(peers, replies, mask);
      if success {
        jobs := Splice(jobs, PositionOrMinusOne(toRemove));
        this.updateTime := updateTime;
      }
    }

    /** VOTE: when the job with that id is due at `exe`, this node's vote for
        the round is drawn if it has none yet and answered; otherwise the
        answer is empty. A missing job or round makes the handler throw
        before any change (`answer` is then None too). */
    method HandleVote(id: int, exe: int, random: real) returns (answer: Option<int>)
      requires 0.0 <= random < 1.0
      modifies this`currentJobs
      ensures var k := IndexOfJob(jobs, id);
              var c := IndexOfRound(old(currentJobs), id);
              if k.Some? && jobs[k.value].nextExecute == exe && c.Some? then
                var round := old(currentJobs)[c.value].round;
                var vote := if round.myVote.None? then AppHelpers.GenerateVote(random) else round.myVote.value;
                answer == Some(vote) &&
                currentJobs == old(currentJobs)[c.value := TrackedRound(id, round.(myVote := Some(vote)))]
              else
                answer.None? && currentJobs == old(currentJobs)
    {
      answer := None;
      var k := IndexOfJob(jobs, id);
      if k.None? || jobs[k.value].nextExecute != exe {
        return;
      }
      var c := IndexOfRound(currentJobs, id);
      if c.None? {
        return;
      }
      var round := currentJobs[c.value].round;
      if round.myVote.None? {
        round := round.(myVote := Some(AppHelpers.GenerateVote(random)));
      }
      currentJobs := currentJobs[c.value := TrackedRound(id, round)];
      answer := round.myVote;
    }

    /** DONE: the job with that id completes its round only when the notice
        names its current `nextExecute`; a missing job makes the handler throw
        before any change. */
    method HandleDone(id: int, exe: int) returns (done: bool)
      modifies this`jobs, this`currentJobs
      ensures done <==> IndexOfJob(old(jobs), id).Some? && old(jobs)[IndexOfJob(old(jobs), id).value].nextExecute == exe
      ensures !done ==> jobs == old(jobs) && currentJobs == old(currentJobs)
      ensures done ==> var k := IndexOfJob(old(jobs), id).value;
                       jobs == old(jobs)[k := old(jobs)[k].(nextExecute := AppHelpers.CalculateNewExecuteTime(
                                 old(jobs)[k].nextExecute, old(jobs)[k].intervalValue, old(jobs)[k].intervalUnit))] &&
                       currentJobs == Splice(old(currentJobs), PositionOrMinusOne(IndexOfRound(old(currentJobs), id))) +
                                      [TrackedRound(id, FreshRound)]
    {
      var k := IndexOfJob(jobs, id);
      done := k.Some? && jobs[k.value].nextExecute == exe;
      if done {
        HandleJobDone(k.value);
      }
    }

    /** `handleJobDone`: one interval later; the job's tracked round (or, when
        none is tracked, through `splice(-1, 1)`, the last one) is dropped and
        a fresh round for the job is appended. */
    method HandleJobDone(k: nat)
      requires k < |jobs|
      modifies this`jobs, this`currentJobs
      ensures jobs == old(jobs)[k := old(jobs)[k].(nextExecute := AppHelpers.CalculateNewExecuteTime(
                                         old(jobs)[k].nextExecute, old(jobs)[k].intervalValue, old(jobs)[k].intervalUnit))]
      ensures jobs[k].nextExecute - old(jobs)[k].nextExecute
           == old(jobs)[k].intervalValue * AppHelpers.UnitMillis(old(jobs)[k].intervalUnit)
      ensures var c := IndexOfRound(old(currentJobs), old(jobs)[k].id);
              currentJobs == Splice(old(currentJobs), PositionOrMinusOne(c)) + [TrackedRound(old(jobs)[k].id, FreshRound)]
      ensures var c := IndexOfRound(old(currentJobs), old(jobs)[k].id);
              c.Some? ==> currentJobs == old(currentJobs)[..c.value] + old(currentJobs)[c.value + 1..] +
                                         [TrackedRound(old(jobs)[k].id, FreshRound)]
    {
      var job := jobs[k];
      jobs := jobs[k := job.(nextExecute := AppHelpers.CalculateNewExecuteTime(job.nextExecute, job.intervalValue, job.intervalUnit))];
      var c := IndexOfRound(currentJobs, job.id);
      currentJobs := Splice(currentJobs, PositionOrMinusOne(c)) + [TrackedRound(job.id, FreshRound)];
    }

    /** `updatePeerStatus` for the peer at position `k`: its status becomes
        the classification of its heartbeat outcome. */
    method UpdatePeerStatus(k: nat, reply: HeartbeatReply)
      requires k < |peers|
      modifies this`peers
      ensures |peers| == |old(peers)|
      ensures peers == old(peers)[k := Peer(old(peers)[k].host, HeartbeatStatus(reply, version, updateTime))]
    {
      peers := peers[k := Peers.UpdatePeerStatus(peers[k], reply, version, updateTime)];
    }
  }
}
