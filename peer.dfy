/** src/app/peer.ts: how a heartbeat outcome classifies a peer, when a state
    push to a peer succeeds, and when a broadcast of a proposed state counts as
    accepted. Requests, timeouts and the `Promise.all` fan-out are replaced by
    the outcome of each request, given as data. Also the peer-list filters the
    orchestrators use to pick whom to talk to. */
module Peers {
  import opened Models
  import opened Seqs

  const ECONNREFUSED: string := "ECONNREFUSED"
  const ENOTFOUND: string := "ENOTFOUND"
  const ECONNRESET: string := "ECONNRESET"

  /** The heartbeat body once parsed: version and update time, each possibly
      missing; or a body that `JSON.parse` rejects. */
  datatype HeartbeatBody = Heartbeat(v: Option<int>, u: Option<int>) | Unparsable

  /** A heartbeat request either gets an HTTP answer or fails with a Node
      error code. */
  datatype HeartbeatReply = Responded(code: int, body: HeartbeatBody) | RequestFailed(errorCode: string)

  /** The status `updatePeerStatus` assigns. A JSON parse error is thrown inside
      the `try`, has no `code`, and so ends in the catch-all branch. */
  function HeartbeatStatus(reply: HeartbeatReply, currentVersion: int, currentUpdateTime: int): (s: PeerStatus)
    ensures s == OLD_VERSION <==>
              reply.Responded? && reply.code == OK && reply.body.Heartbeat? &&
              reply.body.v.Some? && reply.body.v.value != currentVersion
    ensures s == DESYNC <==>
              reply.Responded? && reply.code == OK && reply.body.Heartbeat? &&
              (reply.body.v.None? || reply.body.v.value == currentVersion) &&
              reply.body.u.Some? && reply.body.u.value < currentUpdateTime
    ensures s == ONLINE <==>
              reply.Responded? && reply.code == OK && reply.body.Heartbeat? &&
              (reply.body.v.None? || reply.body.v.value == currentVersion) &&
              (reply.body.u.None? || reply.body.u.value >= currentUpdateTime)
    ensures s == OFFLINE <==>
              (reply.Responded? && reply.code != OK) ||
              (reply.RequestFailed? && reply.errorCode in {ECONNREFUSED, ENOTFOUND})
    ensures s == UNKNOWN <==>
              (reply.Responded? && reply.code == OK && reply.body.Unparsable?) ||
              (reply.RequestFailed? && reply.errorCode !in {ECONNREFUSED, ENOTFOUND})
  {
    match reply
    case Responded(code, body) =>
      if code == OK then
        match body
        case Unparsable => UNKNOWN
        case Heartbeat(v, u) =>
          if v.Some? && v.value != currentVersion then OLD_VERSION
          else if u.Some? && u.value < currentUpdateTime then DESYNC
          else ONLINE
      else OFFLINE
    case RequestFailed(errorCode) =>
      if errorCode == ECONNREFUSED || errorCode == ENOTFOUND then OFFLINE
      else if errorCode == ECONNRESET then UNKNOWN
      else UNKNOWN
  }

  /** `updatePeerStatus` assigns the classified status and nothing else. */
  function UpdatePeerStatus(peer: Peer, reply: HeartbeatReply, currentVersion: int, currentUpdateTime: int): (p: Peer)
    ensures p.host == peer.host && p.status == HeartbeatStatus(reply, currentVersion, currentUpdateTime)
  {
    peer.(status := HeartbeatStatus(reply, currentVersion, currentUpdateTime))
  }

  /** The version check wins over the update-time check: a peer on another
      version is OLD_VERSION however far behind it is. */
  lemma VersionMismatchWins(v: int, u: int, currentVersion: int, currentUpdateTime: int)
    requires v != currentVersion
    ensures HeartbeatStatus(Responded(OK, Heartbeat(Some(v), Some(u))), currentVersion, currentUpdateTime) == OLD_VERSION
  {
  }

  /** A push succeeded exactly when the answer was 200 with an empty body. */
  predicate SyncSucceeded(reply: SyncReply)
  {
    reply == Answered(OK, "")
  }

  /** `syncPeer`: success marks the peer ONLINE; every other outcome (another
      code, a non-empty body, an error, the timeout) is a failure and leaves
      the peer as it was. */
  function SyncPeer(peer: Peer, reply: SyncReply): (r: ResponseSync)
    ensures r.success <==> reply.Answered? && reply.code == OK && reply.data == ""
    ensures r.success ==> r.peer == Peer(peer.host, ONLINE)
    ensures !r.success ==> r.peer == peer
  {
    if SyncSucceeded(reply) then ResponseSync(true, peer.(status := ONLINE))
    else ResponseSync(false, peer)
  }

  /** `responses.some(item => item.success && item.peer.host !== myHost)`. */
  function SyncPeers(responses: seq<ResponseSync>, myHost: Option<string>): (ok: bool)
    ensures ok <==> exists i :: 0 <= i < |responses| && responses[i].success && IsOther(responses[i].peer, myHost)
    ensures responses == [] ==> !ok
    decreases |responses|
  {
    if responses == [] then false
    else if responses[0].success && IsOther(responses[0].peer, myHost) then true
    else
      var rest := SyncPeers(responses[1..], myHost);
      assert rest ==> exists i :: 0 <= i < |responses| && responses[i].success && IsOther(responses[i].peer, myHost) by {
        if rest {
          var i :| 0 <= i < |responses[1..]| && responses[1..][i].success && IsOther(responses[1..][i].peer, myHost);
          assert responses[i + 1] == responses[1..][i];
        }
      }
      assert (exists i :: 0 <= i < |responses| && responses[i].success && IsOther(responses[i].peer, myHost)) ==> rest by {
        if exists i :: 0 <= i < |responses| && responses[i].success && IsOther(responses[i].peer, myHost) {
          var i :| 0 <= i < |responses| && responses[i].success && IsOther(responses[i].peer, myHost);
          assert i > 0;
          assert responses[1..][i - 1] == responses[i];
        }
      }
      rest
  }

  // ---------------------------------------------------------------------
  // Broadcasting a proposed state. `cands` is the list of peer objects a
  // caller holds, `replies[i]` the outcome a push to `cands[i]` would get,
  // and `selected[i]` whether `cands[i]` is one of the broadcast's targets.

  predicate Aligned(cands: seq<Peer>, replies: seq<SyncReply>, selected: seq<bool>)
  {
    |replies| == |cands| && |selected| == |cands|
  }

  /** The targets, in the caller's order. */
  function Targets(cands: seq<Peer>, selected: seq<bool>): (t: seq<Peer>)
    requires |selected| == |cands|
    ensures IsSubsequence(t, cands)
    ensures forall x :: x in t <==> exists i :: 0 <= i < |cands| && selected[i] && cands[i] == x
    ensures |t| == multiset(selected)[true]
    decreases |cands|
  {
    if cands == [] then []
    else
      var rest := Targets(cands[1..], selected[1..]);
      SubsequenceCons(cands[0], rest, cands[1..]);
      assert cands == [cands[0]] + cands[1..];
      TargetsStep(cands, selected, rest);
      if selected[0] then [cands[0]] + rest else rest
  }

  /** The members selected from `cands` are those selected from its tail
      plus, when selected, its head. */
  lemma TargetsStep(cands: seq<Peer>, selected: seq<bool>, rest: seq<Peer>)
    requires |selected| == |cands| > 0
    requires forall x :: x in rest <==> exists i :: 0 <= i < |cands| - 1 && selected[1..][i] && cands[1..][i] == x
    requires |rest| == multiset(selected[1..])[true]
    ensures var t := if selected[0] then [cands[0]] + rest else rest;
            (forall x :: x in t <==> exists i :: 0 <= i < |cands| && selected[i] && cands[i] == x) &&
            |t| == multiset(selected)[true]
  {
    assert selected == [selected[0]] + selected[1..];
    assert multiset(selected) == multiset{selected[0]} + multiset(selected[1..]);
    var t := if selected[0] then [cands[0]] + rest else rest;
    forall x ensures x in t <==> exists i :: 0 <= i < |cands| && selected[i] && cands[i] == x {
      if x in rest {
        var i :| 0 <= i < |cands| - 1 && selected[1..][i] && cands[1..][i] == x;
        assert selected[i + 1] && cands[i + 1] == x;
      }
      if exists i :: 0 <= i < |cands| && selected[i] && cands[i] == x {
        var i :| 0 <= i < |cands| && selected[i] && cands[i] == x;
        if i > 0 {
          assert selected[1..][i - 1] && cands[1..][i - 1] == x;
        }
      }
    }
  }

  /** What `Promise.all(targets.map(syncPeer))` resolves with. */
  function Broadcast(cands: seq<Peer>, replies: seq<SyncReply>, selected: seq<bool>): (rs: seq<ResponseSync>)
    requires Aligned(cands, replies, selected)
    ensures |rs| == |Targets(cands, selected)|
    ensures forall k :: 0 <= k < |rs| ==> rs[k].peer.host == Targets(cands, selected)[k].host
    decreases |cands|
  {
    if cands == [] then []
    else
      var rest := Broadcast(cands[1..], replies[1..], selected[1..]);
      var ts := Targets(cands[1..], selected[1..]);
      if selected[0] then
        var rs := [SyncPeer(cands[0], replies[0])] + rest;
        assert Targets(cands, selected) == [cands[0]] + ts;
        assert forall k :: 1 <= k < |rs| ==> rs[k] == rest[k - 1];
        rs
      else
        assert Targets(cands, selected) == ts;
        rest
  }

  /** The caller's peer objects after the broadcast: each target whose push
      succeeded is now ONLINE. */
  function Synced(cands: seq<Peer>, replies: seq<SyncReply>, selected: seq<bool>): (after: seq<Peer>)
    requires Aligned(cands, replies, selected)
    ensures |after| == |cands|
    ensures forall i :: 0 <= i < |cands| ==> after[i].host == cands[i].host
    ensures forall i :: 0 <= i < |cands| ==>
              after[i] == if selected[i] && SyncSucceeded(replies[i]) then Peer(cands[i].host, ONLINE) else cands[i]
  {
    seq(|cands|, i requires 0 <= i < |cands| => if selected[i] then SyncPeer(cands[i], replies[i]).peer else cands[i])
  }

  /** Some target other than this node took the push. */
  predicate OtherTookPush(cands: seq<Peer>, replies: seq<SyncReply>, selected: seq<bool>, myHost: Option<string>)
    requires Aligned(cands, replies, selected)
  {
    exists i :: 0 <= i < |cands| && selected[i] && SyncSucceeded(replies[i]) && IsOther(cands[i], myHost)
  }

  lemma OtherTookPushSplit(cands: seq<Peer>, replies: seq<SyncReply>, selected: seq<bool>, myHost: Option<string>)
    requires Aligned(cands, replies, selected) && cands != []
    ensures OtherTookPush(cands, replies, selected, myHost) <==>
              (selected[0] && SyncSucceeded(replies[0]) && IsOther(cands[0], myHost)) ||
              OtherTookPush(cands[1..], replies[1..], selected[1..], myHost)
  {
    if OtherTookPush(cands[1..], replies[1..], selected[1..], myHost) {
      var i :| 0 <= i < |cands[1..]| && selected[1..][i] && SyncSucceeded(replies[1..][i]) && IsOther(cands[1..][i], myHost);
      assert cands[1..][i] == cands[i + 1];
    }
    if OtherTookPush(cands, replies, selected, myHost) {
      var i :| 0 <= i < |cands| && selected[i] && SyncSucceeded(replies[i]) && IsOther(cands[i], myHost);
      if i > 0 {
        assert cands[1..][i - 1] == cands[i];
      }
    }
  }

  lemma SyncPeersAppend(a: seq<ResponseSync>, b: seq<ResponseSync>, myHost: Option<string>)
    ensures SyncPeers(a + b, myHost) <==> SyncPeers(a, myHost) || SyncPeers(b, myHost)
  {
    if SyncPeers(b, myHost) {
      var k :| 0 <= k < |b| && b[k].success && IsOther(b[k].peer, myHost);
      assert (a + b)[|a| + k] == b[k];
    }
    if SyncPeers(a, myHost) {
      var k :| 0 <= k < |a| && a[k].success && IsOther(a[k].peer, myHost);
      assert (a + b)[k] == a[k];
    }
    if SyncPeers(a + b, myHost) {
      var k :| 0 <= k < |a + b| && (a + b)[k].success && IsOther((a + b)[k].peer, myHost);
      if k >= |a| {
        assert (a + b)[k] == b[k - |a|];
      }
    }
  }

  /** The broadcast is accepted exactly when some target other than this node
      took the push; so a broadcast with no targets is never accepted. */
  lemma {:induction false} BroadcastAccepted(cands: seq<Peer>, replies: seq<SyncReply>, selected: seq<bool>, myHost: Option<string>)
    requires Aligned(cands, replies, selected)
    ensures SyncPeers(Broadcast(cands, replies, selected), myHost) <==>
              exists i :: 0 <= i < |cands| && selected[i] && SyncSucceeded(replies[i]) && IsOther(cands[i], myHost)
    decreases |cands|
  {
    if cands != [] {
      BroadcastAccepted(cands[1..], replies[1..], selected[1..], myHost);
      OtherTookPushSplit(cands, replies, selected, myHost);
      var head := if selected[0] then [SyncPeer(cands[0], replies[0])] else [];
      var tail := Broadcast(cands[1..], replies[1..], selected[1..]);
      assert Broadcast(cands, replies, selected) == head + tail;
      SyncPeersAppend(head, tail, myHost);
      if selected[0] {
        assert SyncPeers(head, myHost) <==> head[0].success && IsOther(head[0].peer, myHost);
      }
    }
  }

  /** A rejected broadcast has changed the status of no peer other than this
      node itself: the pushes that failed changed nothing, and no other peer's
      push succeeded. */
  lemma RejectedBroadcastChangesNoOther(cands: seq<Peer>, replies: seq<SyncReply>, selected: seq<bool>, myHost: Option<string>)
    requires Aligned(cands, replies, selected)
    requires !SyncPeers(Broadcast(cands, replies, selected), myHost)
    ensures forall i :: 0 <= i < |cands| && IsOther(cands[i], myHost) ==> Synced(cands, replies, selected)[i] == cands[i]
  {
    BroadcastAccepted(cands, replies, selected, myHost);
  }

  /** Which of `peers` a mutation's broadcast goes to: the peers other than
      this node whose status is in `accepted`, except the one at position
      `exclude` (-1: none). */
  function ExcludeMask(peers: seq<Peer>, myHost: Option<string>, accepted: set<PeerStatus>, exclude: int): (m: seq<bool>)
    ensures |m| == |peers|
    ensures forall i :: 0 <= i < |peers| ==>
              (m[i] <==> i != exclude && IsOther(peers[i], myHost) && peers[i].status in accepted)
  {
    seq(|peers|, i requires 0 <= i < |peers| =>
      i != exclude && IsOther(peers[i], myHost) && peers[i].status in accepted)
  }

  /** Some peer such a broadcast goes to took the push. */
  predicate Accepts(peers: seq<Peer>, myHost: Option<string>, accepted: set<PeerStatus>, replies: seq<SyncReply>, exclude: int)
    requires |replies| == |peers|
  {
    exists i :: 0 <= i < |peers| && i != exclude && IsOther(peers[i], myHost) &&
                peers[i].status in accepted && SyncSucceeded(replies[i])
  }

  /** Such a broadcast is accepted exactly when a peer it went to took the
      push, and a rejected one leaves every peer as it was. */
  lemma PushOutcome(peers: seq<Peer>, myHost: Option<string>, accepted: set<PeerStatus>, replies: seq<SyncReply>, exclude: int)
    requires |replies| == |peers|
    ensures var mask := ExcludeMask(peers, myHost, accepted, exclude);
            SyncPeers(Broadcast(peers, replies, mask), myHost) <==> Accepts(peers, myHost, accepted, replies, exclude)
    ensures !Accepts(peers, myHost, accepted, replies, exclude) ==>
              Synced(peers, replies, ExcludeMask(peers, myHost, accepted, exclude)) == peers
  {
    var mask := ExcludeMask(peers, myHost, accepted, exclude);
    BroadcastAccepted(peers, replies, mask, myHost);
    if !Accepts(peers, myHost, accepted, replies, exclude) {
      var after := Synced(peers, replies, mask);
      forall i | 0 <= i < |peers| ensures after[i] == peers[i] {
        if mask[i] {
          assert !SyncSucceeded(replies[i]);
        }
      }
    }
  }

  /** A push to the current peers and, beside them, to one new peer is
      accepted when one of the current targets or the new peer took it. */
  lemma PushWithNewOutcome(peers: seq<Peer>, myHost: Option<string>, accepted: set<PeerStatus>, replies: seq<SyncReply>,
                           newPeer: Peer, newReply: SyncReply)
    requires |replies| == |peers|
    ensures var mask := ExcludeMask(peers, myHost, accepted, -1);
            SyncPeers(Broadcast(peers, replies, mask) + [SyncPeer(newPeer, newReply)], myHost) <==>
              Accepts(peers, myHost, accepted, replies, -1) || (SyncSucceeded(newReply) && IsOther(newPeer, myHost))
  {
    var mask := ExcludeMask(peers, myHost, accepted, -1);
    var toNew := SyncPeer(newPeer, newReply);
    PushOutcome(peers, myHost, accepted, replies, -1);
    SyncPeersAppend(Broadcast(peers, replies, mask), [toNew], myHost);
    assert SyncPeers([toNew], myHost) <==> SyncSucceeded(newReply) && IsOther(newPeer, myHost);
  }

  // ---------------------------------------------------------------------
  // Peer-list filters (`peers.filter(...)`).

  /** The peers whose host is not this node's host. */
  function FilterOthers(peers: seq<Peer>, myHost: Option<string>): (r: seq<Peer>)
    ensures IsSubsequence(r, peers)
    ensures forall p :: p in r <==> p in peers && IsOther(p, myHost)
    ensures forall p :: multiset(r)[p] == if IsOther(p, myHost) then multiset(peers)[p] else 0
    decreases |peers|
  {
    if peers == [] then []
    else
      var rest := FilterOthers(peers[1..], myHost);
      SubsequenceCons(peers[0], rest, peers[1..]);
      assert peers == [peers[0]] + peers[1..];
      assert multiset(peers) == multiset{peers[0]} + multiset(peers[1..]);
      if IsOther(peers[0], myHost) then [peers[0]] + rest else rest
  }

  /** The peers whose status is one of `accepted`. */
  function FilterStatus(peers: seq<Peer>, accepted: set<PeerStatus>): (r: seq<Peer>)
    ensures IsSubsequence(r, peers)
    ensures forall p :: p in r <==> p in peers && p.status in accepted
    ensures forall p :: multiset(r)[p] == if p.status in accepted then multiset(peers)[p] else 0
    decreases |peers|
  {
    if peers == [] then []
    else
      var rest := FilterStatus(peers[1..], accepted);
      SubsequenceCons(peers[0], rest, peers[1..]);
      assert peers == [peers[0]] + peers[1..];
      assert multiset(peers) == multiset{peers[0]} + multiset(peers[1..]);
      if peers[0].status in accepted then [peers[0]] + rest else rest
  }

  /** Filtering by fewer statuses yields a sublist of filtering by more. */
  lemma {:induction false} FilterStatusMonotone(peers: seq<Peer>, a: set<PeerStatus>, b: set<PeerStatus>)
    requires a <= b
    ensures IsSubsequence(FilterStatus(peers, a), FilterStatus(peers, b))
    decreases |peers|
  {
    if peers != [] {
      FilterStatusMonotone(peers[1..], a, b);
      var ra, rb := FilterStatus(peers[1..], a), FilterStatus(peers[1..], b);
      SubsequenceCons(peers[0], ra, rb);
    }
  }

  /** Positions of `peers` that are other peers with an accepted status. */
  function StatusMask(peers: seq<Peer>, myHost: Option<string>, accepted: set<PeerStatus>): (m: seq<bool>)
    ensures |m| == |peers|
    ensures forall i :: 0 <= i < |peers| ==> (m[i] <==> IsOther(peers[i], myHost) && peers[i].status in accepted)
  {
    seq(|peers|, i requires 0 <= i < |peers| => IsOther(peers[i], myHost) && peers[i].status in accepted)
  }

  /** The targets picked by the mask are exactly the filtered list. */
  lemma {:induction false} StatusMaskTargets(peers: seq<Peer>, myHost: Option<string>, accepted: set<PeerStatus>)
    ensures Targets(peers, StatusMask(peers, myHost, accepted)) == FilterStatus(FilterOthers(peers, myHost), accepted)
    decreases |peers|
  {
    if peers != [] {
      StatusMaskTargets(peers[1..], myHost, accepted);
      assert StatusMask(peers, myHost, accepted)[1..] == StatusMask(peers[1..], myHost, accepted);
    }
  }
}
