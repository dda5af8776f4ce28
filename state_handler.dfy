/** src/app/state-handler.ts: the node's replicated state (peers, jobs,
    update time, own host) and its two-phase mutations. Every mutation first
    pushes the proposed state to the other ONLINE and DESYNC peers and commits
    locally only if one of them took it. Peer and job objects are modelled as
    values in the `peers` and `jobs` sequences; an object the source passes
    around is identified by its position there. */
module State {
  import opened Models
  import opened Seqs
  import opened Peers
  import AppHelpers
  import Helpers

  const ONLINE_OR_DESYNC: set<PeerStatus> := {ONLINE, DESYNC}

  /** Position of the first peer whose host is `host` (never found for a
      null host). */
  function IndexOfHost(peers: seq<Peer>, host: Option<string>): (r: Option<nat>)
    ensures r.None? <==> forall i :: 0 <= i < |peers| ==> Some(peers[i].host) != host
    ensures r.Some? ==> r.value < |peers| && Some(peers[r.value].host) == host &&
                        forall j :: 0 <= j < r.value ==> Some(peers[j].host) != host
  {
    IndexOfHostFrom(peers, host, 0)
  }

  function IndexOfHostFrom(peers: seq<Peer>, host: Option<string>, from: nat): (r: Option<nat>)
    requires from <= |peers|
    requires forall j :: 0 <= j < from ==> Some(peers[j].host) != host
    ensures r.None? <==> forall i :: 0 <= i < |peers| ==> Some(peers[i].host) != host
    ensures r.Some? ==> from <= r.value < |peers| && Some(peers[r.value].host) == host &&
                        forall j :: 0 <= j < r.value ==> Some(peers[j].host) != host
    decreases |peers| - from
  {
    if from == |peers| then None
    else if Some(peers[from].host) == host then Some(from)
    else IndexOfHostFrom(peers, host, from + 1)
  }

  /** The position of a host depends on the hosts alone. */
  lemma IndexOfHostSameHosts(a: seq<Peer>, b: seq<Peer>, host: Option<string>)
    requires |a| == |b| && forall i :: 0 <= i < |a| ==> a[i].host == b[i].host
    ensures IndexOfHost(a, host) == IndexOfHost(b, host)
  {
    var ra := IndexOfHost(a, host);
    var rb := IndexOfHost(b, host);
    if ra.Some? && rb.Some? {
      assert !(ra.value < rb.value) && !(rb.value < ra.value);
    }
  }

  /** A peer appended to a list that lacked its host is the only entry with
      that host, and it is last. */
  lemma AppendedHost(peers: seq<Peer>, p: Peer)
    requires IndexOfHost(peers, Some(p.host)).None?
    ensures var r := peers + [p];
            |r| == |peers| + 1 && r[|peers|].host == p.host &&
            forall i :: 0 <= i < |peers| ==> r[i].host != p.host
  {
  }

  predicate IdUsed(jobs: seq<Job>, id: int)
  {
    exists j :: 0 <= j < |jobs| && jobs[j].id == id
  }

  /** `id` is the least positive integer that no job uses. */
  predicate IsSmallestUnusedId(jobs: seq<Job>, id: int)
  {
    id >= 1 && !IdUsed(jobs, id) && forall k :: 1 <= k < id ==> IdUsed(jobs, k)
  }

  /** If every id 1..n is taken, there are at least n jobs: so the search for
      a free id stops after at most |jobs| + 1 probes. */
  lemma {:induction false} UsedIdsBound(jobs: seq<Job>, n: nat)
    requires forall k :: 1 <= k <= n ==> IdUsed(jobs, k)
    ensures n <= |jobs|
    decreases n
  {
    if n > 0 {
      assert IdUsed(jobs, n);
      var j :| 0 <= j < |jobs| && jobs[j].id == n;
      var rest := jobs[..j] + jobs[j + 1..];
      forall k | 1 <= k <= n - 1
        ensures IdUsed(rest, k)
      {
        assert IdUsed(jobs, k);
        var i :| 0 <= i < |jobs| && jobs[i].id == k;
        if i < j {
          assert rest[i] == jobs[i];
        } else {
          assert rest[i - 1] == jobs[i];
        }
      }
      UsedIdsBound(rest, n - 1);
    }
  }

  /** The `while (true)` search of `getNewJobId` / `chooseNewJobId`. */
  method SmallestUnusedId(jobs: seq<Job>) returns (id: int)
    ensures IsSmallestUnusedId(jobs, id)
    ensures id <= |jobs| + 1
  {
    id := 1;
    while true
      invariant 1 <= id <= |jobs| + 1
      invariant forall k :: 1 <= k < id ==> IdUsed(jobs, k)
      decreases |jobs| + 1 - id
    {
      if !(exists j :: 0 <= j < |jobs| && jobs[j].id == id) {
        return;
      }
      UsedIdsBound(jobs, id);
      id := id + 1;
    }
  }

  /** A completed round: one interval later, and a fresh voting round. */
  function JobDone(job: Job): (done: Job)
    ensures done.nextExecute - job.nextExecute == job.intervalValue * AppHelpers.UnitMillis(job.intervalUnit)
    ensures done.currentJob == Some(CurrentJob([], None))
    ensures done.id == job.id && done.endpoint == job.endpoint && done.startTime == job.startTime
    ensures done.intervalValue == job.intervalValue && done.intervalUnit == job.intervalUnit
  {
    job.(nextExecute := AppHelpers.CalculateNewExecuteTime(job.nextExecute, job.intervalValue, job.intervalUnit),
         currentJob := Some(FreshRound))
  }

  /** Two completions in a row move a job exactly two intervals on. */
  lemma JobDoneTwice(job: Job)
    ensures JobDone(JobDone(job)).nextExecute
         == job.nextExecute + 2 * job.intervalValue * AppHelpers.UnitMillis(job.intervalUnit)
    ensures JobDone(JobDone(job)).currentJob == Some(FreshRound)
  {
    AppHelpers.ExecuteTimeAdditive(job.nextExecute, job.intervalValue, job.intervalValue, job.intervalUnit);
  }

  /** The DONE notice that `executeJob` posts to an online peer. */
  datatype DoneNotice = DoneNotice(host: string, id: int, exe: int)

  class StateHandler {
    const version: int
    var myHost: Option<string>
    var updateTime: int
    var peers: seq<Peer>
    var jobs: seq<Job>

    constructor()
      ensures version == VERSION && myHost.None? && updateTime == 0 && peers == [] && jobs == []
    {
      version := VERSION;
      myHost := None;
      updateTime := 0;
      peers := [];
      jobs := [];
    }

    /** The `for` loop of `getPeer`; the peer it finds is given by position. */
    method GetPeer(host: Option<string>) returns (found: Option<nat>)
      ensures found == IndexOfHost(peers, host)
      ensures found.Some? ==> found.value < |peers| && Some(peers[found.value].host) == host
    {
      for i := 0 to |peers|
        invariant forall j :: 0 <= j < i ==> Some(peers[j].host) != host
      {
        if Some(peers[i].host) == host {
          var expected := IndexOfHost(peers, host);
          assert expected == Some(i);
          return Some(i);
        }
      }
      return None;
    }

    /** The `for` loop of `getJob`: the first job with that id, or null. */
    method GetJob(id: int) returns (r: Option<Job>)
      ensures r == Helpers.GetFromArrayById(jobs, id)
    {
      for i := 0 to |jobs|
        invariant forall j :: 0 <= j < i ==> jobs[j].id != id
      {
        if jobs[i].id == id {
          var expected := Helpers.GetFromArrayById(jobs, id);
          assert expected == Some(jobs[i]);
          return Some(jobs[i]);
        }
      }
      return None;
    }

    method GetNewJobId() returns (id: int)
      ensures IsSmallestUnusedId(jobs, id)
      ensures id <= |jobs| + 1
    {
      id := SmallestUnusedId(jobs);
    }

    function OtherPeers(): (r: seq<Peer>)
      reads this
      ensures IsSubsequence(r, peers)
      ensures forall p :: p in r <==> p in peers && IsOther(p, myHost)
      ensures forall p :: multiset(r)[p] == if IsOther(p, myHost) then multiset(peers)[p] else 0
    {
      FilterOthers(peers, myHost)
    }

    function OnlinePeers(): (r: seq<Peer>)
      reads this
      ensures IsSubsequence(r, peers)
      ensures forall p :: p in r <==> p in peers && IsOther(p, myHost) && p.status == ONLINE
      ensures forall p :: multiset(r)[p] == if IsOther(p, myHost) && p.status == ONLINE then multiset(peers)[p] else 0
    {
      var others := OtherPeers();
      SubsequenceTransitive(FilterStatus(others, {ONLINE}), others, peers);
      FilterStatus(others, {ONLINE})
    }

    function DesyncPeers(): (r: seq<Peer>)
      reads this
      ensures IsSubsequence(r, peers)
      ensures forall p :: p in r <==> p in peers && IsOther(p, myHost) && p.status == DESYNC
      ensures forall p :: multiset(r)[p] == if IsOther(p, myHost) && p.status == DESYNC then multiset(peers)[p] else 0
    {
      var others := OtherPeers();
      SubsequenceTransitive(FilterStatus(others, {DESYNC}), others, peers);
      FilterStatus(others, {DESYNC})
    }

    function OnlineAndDesyncPeers(): (r: seq<Peer>)
      reads this
      ensures IsSubsequence(r, peers)
      ensures forall p :: p in r <==> p in peers && IsOther(p, myHost) && p.status in ONLINE_OR_DESYNC
      ensures forall p :: multiset(r)[p] == if IsOther(p, myHost) && p.status in ONLINE_OR_DESYNC then multiset(peers)[p] else 0
    {
      var others := OtherPeers();
      SubsequenceTransitive(FilterStatus(others, ONLINE_OR_DESYNC), others, peers);
      FilterStatus(others, ONLINE_OR_DESYNC)
    }

    /** The online list and the desync list are each an order-preserving
        sublist of the online-and-desync list. */
    lemma OnlineAndDesyncContainsBoth()
      ensures IsSubsequence(OnlinePeers(), OnlineAndDesyncPeers())
      ensures IsSubsequence(DesyncPeers(), OnlineAndDesyncPeers())
    {
      FilterStatusMonotone(OtherPeers(), {ONLINE}, ONLINE_OR_DESYNC);
      FilterStatusMonotone(OtherPeers(), {DESYNC}, ONLINE_OR_DESYNC);
    }

    /** Who a mutation's broadcast goes to: the other ONLINE and DESYNC
        peers, as positions of `peers`. */
    function BroadcastMask(): (m: seq<bool>)
      reads this
      ensures |m| == |peers|
      ensures Targets(peers, m) == OnlineAndDesyncPeers()
    {
      assert ExcludeMask(peers, myHost, ONLINE_OR_DESYNC, -1) == StatusMask(peers, myHost, ONLINE_OR_DESYNC);
      StatusMaskTargets(peers, myHost, ONLINE_OR_DESYNC);
      ExcludeMask(peers, myHost, ONLINE_OR_DESYNC, -1)
    }

    /** Adopts a pushed state wholesale and marks the first peer with this
        node's (newly learnt) host ONLINE. When there is no such peer the
        source's `getPeer(...).status` throws after the state was replaced;
        `ok` is false then. */
    method SyncState(data: BodySync) returns (ok: bool)
      modifies this
      ensures jobs == data.j && updateTime == data.u && myHost == data.r
      ensures ok <==> IndexOfHost(data.p, data.r).Some?
      ensures ok ==> var i := IndexOfHost(data.p, data.r).value;
                     peers == data.p[i := Peer(data.p[i].host, ONLINE)]
      ensures !ok ==> peers == data.p
    {
      peers := data.p;
      jobs := data.j;
      updateTime := data.u;
      myHost := data.r;
      var found := GetPeer(myHost);
      if found.Some? {
        peers := peers[found.value := peers[found.value].(status := ONLINE)];
        ok := true;
      } else {
        ok := false;
      }
    }

    /** `addPeer`: pushes the peer list with `newPeer` appended to the other
        ONLINE/DESYNC peers and to `newPeer` itself (`replies` holds the
        outcome for each current peer, `newReply` for the new one). Accepted,
        the peer is appended unless its host is already known, and the update
        time is adopted; rejected, nothing changes. */
    method AddPeer(newPeer: Peer, updateTime: int, replies: seq<SyncReply>, newReply: SyncReply) returns (success: bool)
      requires |replies| == |peers|
      modifies this
      ensures success <==> Accepts(old(peers), old(myHost), ONLINE_OR_DESYNC, replies, -1) ||
                           (SyncSucceeded(newReply) && IsOther(newPeer, old(myHost)))
      ensures !success ==> peers == old(peers) && this.updateTime == old(this.updateTime)
      ensures success ==> this.updateTime == updateTime
      ensures success ==> var synced := Synced(old(peers), replies, ExcludeMask(old(peers), old(myHost), ONLINE_OR_DESYNC, -1));
                          peers == if IndexOfHost(old(peers), Some(newPeer.host)).None?
                                   then synced + [SyncPeer(newPeer, newReply).peer] else synced
      ensures success ==> exists i :: 0 <= i < |peers| && peers[i].host == newPeer.host
      ensures success && IndexOfHost(old(peers), Some(newPeer.host)).None? ==>
                |peers| == |old(peers)| + 1 && peers[|old(peers)|].host == newPeer.host &&
                forall i :: 0 <= i < |old(peers)| ==> peers[i].host != newPeer.host
      ensures jobs == old(jobs) && myHost == old(myHost)
    {
      var mask := ExcludeMask(peers, myHost, ONLINE_OR_DESYNC, -1);
      var toExisting := Broadcast(peers, replies, mask);
      var toNew := SyncPeer(newPeer, newReply);
      success := SyncPeers(toExisting + [toNew], myHost);
      PushOutcome(peers, myHost, ONLINE_OR_DESYNC, replies, -1);
      PushWithNewOutcome(peers, myHost, ONLINE_OR_DESYNC, replies, newPeer, newReply);
      var synced := Synced(peers, replies, mask);
      IndexOfHostSameHosts(peers, synced, Some(newPeer.host));
      peers := synced;
      if success {
        var found := GetPeer(Some(newPeer.host));
        if found.None? {
          AppendedHost(synced, toNew.peer);
          peers := peers + [toNew.peer];
        }
        this.updateTime := updateTime;
      }
    }

    /** `removePeer` for the peer object at position `k` (the source splices
        at `indexOf`, which must find it): pushes the list without it to the
        other ONLINE/DESYNC peers except that one; accepted, removes exactly
        that entry and adopts the update time; rejected, nothing changes. */
    method RemovePeer(k: nat, updateTime: int, replies: seq<SyncReply>) returns (success: bool)
      requires k < |peers| && |replies| == |peers|
      modifies this
      ensures success <==> Accepts(old(peers), old(myHost), ONLINE_OR_DESYNC, replies, k)
      ensures !success ==> peers == old(peers) && this.updateTime == old(this.updateTime)
      ensures success ==> this.updateTime == updateTime &&
                          peers == Splice(Synced(old(peers), replies, ExcludeMask(old(peers), old(myHost), ONLINE_OR_DESYNC, k)), k)
      ensures success ==> |peers| == |old(peers)| - 1 &&
                          (forall i :: 0 <= i < k ==> peers[i].host == old(peers)[i].host) &&
                          (forall i :: k <= i < |peers| ==> peers[i].host == old(peers)[i + 1].host)
      ensures jobs == old(jobs) && myHost == old(myHost)
    {
      var mask := ExcludeMask(peers, myHost, ONLINE_OR_DESYNC, k);
      success := SyncPeers(Broadcast(peers, replies, mask), myHost);
      PushOutcome(peers, myHost, ONLINE_OR_DESYNC, replies, k);
      peers := Synced(peers, replies, mask);
      if success {
        peers := Splice(peers, k);
        this.updateTime := updateTime;
      }
    }

    /** `addJob`: the new job gets the least free id and its first execution
        one interval after its start. Accepted, it is appended with a fresh
        voting round and the update time is adopted; rejected, the jobs and
        the update time are unchanged. */
    method AddJob(data: BodyNewJob, replies: seq<SyncReply>) returns (success: bool)
      requires |replies| == |peers|
      modifies this
      ensures success <==> Accepts(old(peers), old(myHost), ONLINE_OR_DESYNC, replies, -1)
      ensures !success ==> jobs == old(jobs) && updateTime == old(updateTime) && peers == old(peers)
      ensures success ==> peers == Synced(old(peers), replies, ExcludeMask(old(peers), old(myHost), ONLINE_OR_DESYNC, -1)) &&
                          updateTime == data.updateTime
      ensures success ==>
                |jobs| == |old(jobs)| + 1 && jobs[..|old(jobs)|] == old(jobs) &&
                var job := jobs[|old(jobs)|];
                IsSmallestUnusedId(old(jobs), job.id) &&
                job == Job(job.id, data.endpoint, data.startTime,
                           AppHelpers.CalculateNewExecuteTime(data.startTime, data.intervalValue, data.intervalUnit),
                           data.intervalValue, data.intervalUnit, Some(FreshRound))
      ensures myHost == old(myHost)
    {
      var id := GetNewJobId();
      var newJob := Job(id, data.endpoint, data.startTime,
                        AppHelpers.CalculateNewExecuteTime(data.startTime, data.intervalValue, data.intervalUnit),
                        data.intervalValue, data.intervalUnit, None);
      var mask := ExcludeMask(peers, myHost, ONLINE_OR_DESYNC, -1);
      success := SyncPeers(Broadcast(peers, replies, mask), myHost);
      PushOutcome(peers, myHost, ONLINE_OR_DESYNC, replies, -1);
      peers := Synced(peers, replies, mask);
      if success {
        newJob := newJob.(currentJob := Some(FreshRound));
        jobs := jobs + [newJob];
        assert jobs[..|jobs| - 1] == old(jobs);
        updateTime := data.updateTime;
      }
    }

    /** `removeJob` for the job object at position `k`. Accepted, exactly
        that job is removed (its timers cancelled) and the update time is
        adopted; rejected, nothing changes. */
    method RemoveJob(k: nat, updateTime: int, replies: seq<SyncReply>) returns (success: bool)
      requires k < |jobs| && |replies| == |peers|
      modifies this
      ensures success <==> Accepts(old(peers), old(myHost), ONLINE_OR_DESYNC, replies, -1)
      ensures !success ==> jobs == old(jobs) && this.updateTime == old(this.updateTime) && peers == old(peers)
      ensures success ==> peers == Synced(old(peers), replies, ExcludeMask(old(peers), old(myHost), ONLINE_OR_DESYNC, -1)) &&
                          this.updateTime == updateTime &&
                          jobs == old(jobs)[..k] + old(jobs)[k + 1..]
      ensures myHost == old(myHost)
    {
      var mask := ExcludeMask(peers, myHost, ONLINE_OR_DESYNC, -1);
      success := SyncPeers(Broadcast(peers, replies, mask), myHost);
      PushOutcome(peers, myHost, ONLINE_OR_DESYNC, replies, -1);
      peers := Synced(peers, replies, mask);
      if success {
        jobs := Splice(jobs, k);
        this.updateTime := updateTime;
      }
    }

    /** `handleJobDone`: one interval later, with a new, empty round. */
    method HandleJobDone(k: nat)
      requires k < |jobs|
      modifies this`jobs
      ensures jobs == old(jobs)[k := JobDone(old(jobs)[k])]
      ensures jobs[k].nextExecute - old(jobs)[k].nextExecute
           == old(jobs)[k].intervalValue * AppHelpers.UnitMillis(old(jobs)[k].intervalUnit)
      ensures jobs[k].currentJob == Some(CurrentJob([], None))
    {
      jobs := jobs[k := JobDone(jobs[k])];
    }

    /** `extraJob`: when this node had voted, the round starts over with no
        votes and no own vote; otherwise nothing happens. A job without a
        round makes the source throw before any change. */
    method ExtraJob(k: nat)
      requires k < |jobs|
      modifies this`jobs
      ensures old(jobs)[k].currentJob.None? || old(jobs)[k].currentJob.value.myVote.None? ==> jobs == old(jobs)
      ensures old(jobs)[k].currentJob.Some? && old(jobs)[k].currentJob.value.myVote.Some? ==>
                jobs == old(jobs)[k := old(jobs)[k].(currentJob := Some(CurrentJob([], None)))]
    {
      var job := jobs[k];
      if job.currentJob.Some? && job.currentJob.value.myVote.Some? {
        jobs := jobs[k := job.(currentJob := Some(FreshRound))];
      }
    }

    /** `getVotes`: draws this node's vote when it has none (or, through the
        falsy test `!myVote`, when it is 0). Peer answers are response
        objects, never integers, so `Number.isInteger` admits none and the
        vote list is left as it was. */
    method GetVotes(k: nat, random: real)
      requires k < |jobs|
      requires 0.0 <= random < 1.0
      modifies this`jobs
      ensures old(jobs)[k].currentJob.None? ==> jobs == old(jobs)
      ensures old(jobs)[k].currentJob.Some? ==>
                var round := old(jobs)[k].currentJob.value;
                jobs == old(jobs)[k := old(jobs)[k].(currentJob := Some(
                  if round.myVote.None? || round.myVote == Some(0)
                  then round.(myVote := Some(AppHelpers.GenerateVote(random)))
                  else round))]
    {
      var job := jobs[k];
      if job.currentJob.Some? {
        var round := job.currentJob.value;
        if round.myVote.None? || round.myVote == Some(0) {
          round := round.(myVote := Some(AppHelpers.GenerateVote(random)));
        }
        jobs := jobs[k := job.(currentJob := Some(round))];
      }
    }

    /** `executeJob`: this node runs the job only when its own vote equals
        `Math.max` of the collected votes (never with no votes, since the
        maximum is then minus infinity) and the endpoint call succeeds
        (`endpointOk`). It then completes the round and sends a DONE notice
        to every online peer, carrying the ADVANCED `nextExecute`. */
    method ExecuteJob(k: nat, endpointOk: bool) returns (executed: bool, notices: seq<DoneNotice>)
      requires k < |jobs|
      modifies this`jobs
      ensures var round := old(jobs)[k].currentJob;
              executed <==> round.Some? && round.value.myVote.Some? &&
                            AppHelpers.MaxVote(round.value.votes) == AppHelpers.Finite(round.value.myVote.value) &&
                            endpointOk
      ensures executed ==> jobs == old(jobs)[k := JobDone(old(jobs)[k])]
      ensures !executed ==> jobs == old(jobs) && notices == []
      ensures executed ==> |notices| == |old(OnlinePeers())| &&
                           forall i :: 0 <= i < |notices| ==>
                             notices[i] == DoneNotice(old(OnlinePeers())[i].host, jobs[k].id, jobs[k].nextExecute)
    {
      executed := false;
      notices := [];
      var round := jobs[k].currentJob;
      if round.None? {
        return;
      }
      var wins := round.value.myVote.Some? &&
                  AppHelpers.MaxVote(round.value.votes) == AppHelpers.Finite(round.value.myVote.value);
      if wins && endpointOk {
        var online := OnlinePeers();
        HandleJobDone(k);
        executed := true;
        var done := jobs[k];
        notices := seq(|online|, i requires 0 <= i < |online| => DoneNotice(online[i].host, done.id, done.nextExecute));
      }
    }
  }
}
