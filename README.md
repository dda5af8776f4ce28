# Decentralized scheduler core, modelled in Dafny

The system is a peer-replicated job scheduler written in TypeScript. Every
node holds the same list of peers and jobs. A change (a peer or job added or
removed) is first broadcast to the other peers as a proposed state. It is
committed locally only when at least one other peer accepted it. Jobs run on
a fixed interval. Before each run the nodes vote, and only the winner calls
the job's endpoint and tells the others it is done. Each node also keeps a
small WebSocket frame codec and a URL parser.

This project models that core and proves properties of it:

- `models.dfy` (`Models`): the shared records (`Peer`, `Job`, `CurrentJob`,
  `BodySync`, `BodyNewJob`) and constants (HTTP 200, version 1, the interval
  unit codes).
- `seqs.dfy` (`Seqs`): JavaScript `splice(i, 1)` semantics, where index -1
  removes the last element, and the "order-preserving sublist" relation.
- `helpers.dfy` (`Helpers`): `formatHost`, `randomInteger` and
  `getFromArrayById`.
- `app_helpers.dfy` (`AppHelpers`): the pure functions at the bottom of
  `app.ts`. These are the schedule arithmetic, the plain-maximum vote, the
  vote draw and `createHost`.
- `job.dfy` (`Jobs`): the `Job` class. This covers the constructor, the
  execution time, the unique-maximum election and drawing the node's own vote.
- `peer.dfy` (`Peers`): heartbeat classification (`updatePeerStatus`), the
  success rule of one state push (`syncPeer`) and the acceptance rule of a
  broadcast (`syncPeers`). It also holds the broadcast model and the peer
  filters.
- `state_handler.dfy` (`State`): the `StateHandler` class. Its fields are
  `peers`, `jobs`, `updateTime` and `myHost`. Its methods are `syncState`,
  the two-phase add/remove of peers and jobs, the lookups, the job-id search
  loop and the job-round operations.
- `app.dfy` (`App`): the older `ServerApp` of `app.ts`. This covers the state
  effects of its SYNC, ADD_NEW_PEER, REMOVE_PEER, ADD_NEW_JOB, REMOVE_JOB,
  VOTE and DONE handlers, plus `handleJobDone` and `updatePeerStatus`.
- `socket_handler.dfy` (`WebSocket`): `decodeFrame` over the handler's byte
  buffer, `generateMetaData` and `encodeFrame`. This is base framing and
  masking as in sections 5.2 and 5.3 of RFC 6455. Decoding an encoded frame
  is proved to give back the payload.
- `requests.dfy` (`Requests`): `parseURL`.

How the model represents the source:

- Peers and jobs are JavaScript objects, shared by reference. Here they are
  values held in `seq` fields, and an object is identified by its position.
- Each state push has an outcome given as data (`SyncReply`). A broadcast is
  modelled as:
  - the caller's peer list;
  - one reply per entry of that list;
  - a mask that says which entries are targets.
- From this model it is proved that:
  - a broadcast is accepted exactly when a target other than this node took
    the push;
  - a rejected broadcast changes no peer other than this node's own entry;
  - the local state is committed only when the broadcast was accepted.
- Random numbers are parameters: the vote draw and the WebSocket mask key.
  So is whether the endpoint call succeeded.

The model follows the code as written, including these behaviours:

- `parseURL` keeps the colon in the host. It removes the first occurrence
  of the port digits, which can lie inside the host: `http://8:8` gives host
  `":8"`.
- `decodeFrame`'s first completeness test adds the 7-bit length code itself
  to the offset, before any extended length is read.
- REMOVE_JOB with an id no job has removes the last job when the broadcast
  is accepted, through `splice(-1, 1)`. `app.ts`'s `handleJobDone` does the
  same to the tracked rounds when the job has none.
- REMOVE_PEER removes the LAST peer with the host.
- The state handler's `getVotes` never records a peer's vote: the answers
  are response objects, never integers. Its falsy test also redraws an own
  vote of 0.
- DONE notices carry the `nextExecute` after it has been advanced.
- `createHost` gives `"http://undefined"` for an address without the IPv6
  prefix.
- `syncState` without a peer for the node's own host throws after the state
  has been replaced. This is modelled as `ok == false`.

`syncState` is not given a precondition that a peer for the own host exists.
The code reaches that case and throws, so the model covers it rather than
excluding it.

## Model

| member | source | states |
|---|---|---|
| `Helpers.FormatHost` | src/app/utils/helpers.ts:1-3 | A trailing `/` is dropped exactly once; otherwise the host is unchanged; the result is a prefix at most one character shorter |
| `Helpers.FormatHostStripsOneSlash` | src/app/utils/helpers.ts:1-3 | `s + "/"` formats to `s`, and `s + "//"` only to `s + "/"` |
| `Helpers.RandomInteger` | src/app/utils/helpers.ts:5-7 | For a random number in [0, 1) the result lies in [0, 1000) |
| `Helpers.GetFromArrayById` | src/app/utils/helpers.ts:9-16 | Null exactly when no element has the id; otherwise it returns the first element with that id |
| `AppHelpers.UnitMillis` | src/app/app.ts:474-488 | 60000, 3600000, 86400000 or 2592000000 ms for minute, hour, day or month; 1 for an unknown unit |
| `AppHelpers.CalculateNewExecuteTime` | src/app/app.ts:474-491 | The start time plus the interval value times the unit's factor, or plus the bare value for an unknown unit |
| `AppHelpers.ExecuteTimeAdditive` | src/app/app.ts:474-491 | Advancing by `v` and then by `w` units equals advancing by `v + w` |
| `AppHelpers.ExecuteTimeAdvances` | src/app/app.ts:474-491 | A positive interval moves the time forward by at least its value, and the step does not depend on the start |
| `AppHelpers.MaxVote` | src/app/app.ts:468-472 | Minus infinity exactly for no votes; otherwise a vote in the list that is at least every vote, with no tie detection |
| `AppHelpers.GenerateVote` | src/app/app.ts:493-495 | A drawn vote lies in [0, 1e9) |
| `AppHelpers.CreateHost` | src/app/app.ts:458-466 | The result always starts with `http://`; an `::ffff:` prefix is stripped; without it the host reads `undefined` |
| `AppHelpers.CreateHostRoundTrip` | src/app/app.ts:458-466 | The address after `::ffff:` comes back behind `http://` |
| `Jobs.CountOf` | src/app/job.ts:66 | The length of the filter for `x` equals the multiplicity of `x` |
| `Jobs.WinnerVote` | src/app/job.ts:59-72 | No winner with fewer than 2 votes. A winner exists exactly when some vote is at least every vote and occurs once; it is then that vote |
| `Jobs.TieHasNoWinner` | src/app/job.ts:64-69 | A maximum vote that occurs twice gives no winner |
| `Jobs.Job.constructor` | src/app/job.ts:29-36 | All fields are copied; a supplied non-zero `nextExecute` is kept, otherwise it is one interval after the start |
| `Jobs.Job.CalculateExecuteTime` | src/app/job.ts:38-56 | The time minus the start is the interval value times the unit factor |
| `Jobs.Job.GetWinnerVote` | src/app/job.ts:59-72 | The method's election on the job's round is the unique-maximum `WinnerVote` |
| `Jobs.Job.GetMyVote` | src/app/job.ts:74-81 | The first call draws a vote in [0, 1e9) and sets it as own vote, appended once to the votes. Later calls return it and change nothing |
| `Jobs.Job.Serialize` | src/app/job.ts:89-98 | Exactly the six schedule fields with their current values; the round is dropped |
| `Jobs.VoteIsDrawnOnce` | src/app/job.ts:74-81 | Two calls on a fresh round give the same vote, and it is recorded once |
| `Peers.HeartbeatStatus` | src/app/peer.ts:19-46 | For each status, an iff stating when it is assigned: version mismatch before stale update time before ONLINE; non-200 or refused/not-found gives OFFLINE; every other error UNKNOWN |
| `Peers.UpdatePeerStatus` | src/app/peer.ts:19-46 | Only the status changes, to the classification |
| `Peers.VersionMismatchWins` | src/app/peer.ts:23-29 | Another version gives OLD_VERSION however stale the update time is |
| `Peers.SyncPeer` | src/app/peer.ts:53-76 | Success exactly for a 200 answer with an empty body, and the peer is then ONLINE; on any other outcome the peer is unchanged |
| `Peers.SyncPeers` | src/app/peer.ts:48-51 | True exactly when some response is a success from a host other than this node's; false for no responses |
| `Peers.Targets` | src/app/peer.ts:49 | The broadcast's targets are an order-preserving sublist of the caller's peers, holding exactly the selected peers, one entry per selected position |
| `Peers.Broadcast` | src/app/peer.ts:48-49 | One response per target, in the targets' order and with their hosts |
| `Peers.Synced` | src/app/peer.ts:64-67 | Each target whose push succeeded is ONLINE afterwards; every other entry is unchanged |
| `Peers.SyncPeersAppend` | src/app/peer.ts:50 | `some` over two joined response lists is `some` over either |
| `Peers.BroadcastAccepted` | src/app/peer.ts:48-51 | A broadcast is accepted exactly when a target other than this node took the push |
| `Peers.RejectedBroadcastChangesNoOther` | src/app/peer.ts:48-76 | After a rejected broadcast no peer other than this node's own entry has changed |
| `Peers.ExcludeMask` | src/app/state-handler.ts:42 | Targets are the other peers with an accepted status, except the excluded position |
| `Peers.PushOutcome` | src/app/peer.ts:48-51 | Such a broadcast is accepted exactly when an eligible peer took the push; rejected, it left every peer as it was |
| `Peers.PushWithNewOutcome` | src/app/state-handler.ts:27-31 | A broadcast to the current targets plus one new peer is accepted exactly when one of them or the new (other) peer took it |
| `Peers.FilterOthers` | src/app/state-handler.ts:105-107 | An order-preserving sublist holding exactly the peers whose host is not this node's, each with all its copies |
| `Peers.FilterStatus` | src/app/state-handler.ts:109-119 | An order-preserving sublist holding exactly the peers with an accepted status, each with all its copies |
| `Peers.FilterStatusMonotone` | src/app/state-handler.ts:109-119 | Filtering by fewer statuses gives a sublist of filtering by more |
| `Peers.StatusMask` | src/app/state-handler.ts:117-119 | Marks exactly the other peers whose status is accepted |
| `Peers.StatusMaskTargets` | src/app/state-handler.ts:117-119 | The peers the mask picks are exactly the filtered list |
| `State.IndexOfHost` | src/app/state-handler.ts:96-103 | None exactly when no peer has the host; otherwise the first position with it |
| `State.IndexOfHostSameHosts` | src/app/state-handler.ts:96-103 | The position found depends on the hosts alone, so it survives status changes |
| `State.AppendedHost` | src/app/state-handler.ts:32-34 | A peer appended to a list lacking its host is last and the only one with that host |
| `State.UsedIdsBound` | src/app/state-handler.ts:132-140 | If ids 1..n are all taken there are at least n jobs, so the id search ends |
| `State.SmallestUnusedId` | src/app/state-handler.ts:132-140 | The loop returns the least positive id no job uses, at most one more than the number of jobs |
| `State.JobDone` | src/app/state-handler.ts:202-206 | One interval later, with an empty round and no own vote; every other field is kept |
| `State.JobDoneTwice` | src/app/state-handler.ts:202-206 | Two completions move the job exactly two intervals on |
| `State.StateHandler.constructor` | src/app/state-handler.ts:8-13 | Version 1, no own host, update time 0, no peers, no jobs |
| `State.StateHandler.GetPeer` | src/app/state-handler.ts:96-103 | The loop finds the first peer with the host, or none |
| `State.StateHandler.GetJob` | src/app/state-handler.ts:121-128 | The loop finds the first job with the id, or null |
| `State.StateHandler.GetNewJobId` | src/app/state-handler.ts:132-140 | The least positive id no job uses |
| `State.StateHandler.OtherPeers` | src/app/state-handler.ts:105-107 | An order-preserving sublist of the peers holding exactly those not named by the own host, each with all its copies |
| `State.StateHandler.OnlinePeers` | src/app/state-handler.ts:109-111 | An order-preserving sublist holding exactly the other ONLINE peers, each with all its copies |
| `State.StateHandler.DesyncPeers` | src/app/state-handler.ts:113-115 | An order-preserving sublist holding exactly the other DESYNC peers, each with all its copies |
| `State.StateHandler.OnlineAndDesyncPeers` | src/app/state-handler.ts:117-119 | An order-preserving sublist holding exactly the other ONLINE or DESYNC peers, each with all its copies |
| `State.StateHandler.OnlineAndDesyncContainsBoth` | src/app/state-handler.ts:109-119 | The online and the desync lists are each sublists of the online-and-desync list |
| `State.StateHandler.BroadcastMask` | src/app/state-handler.ts:117-119 | The mutations' mask picks exactly the online-and-desync list |
| `State.StateHandler.SyncState` | src/app/state-handler.ts:15-25 | Jobs, update time and own host are adopted. With a peer for the own host, the peers are adopted and the first such peer is ONLINE; without one, `ok` is false |
| `State.StateHandler.AddPeer` | src/app/state-handler.ts:27-38 | Accepted exactly when an online/desync other peer or the new peer took the push. Rejected: nothing changes. Accepted: the update time is adopted and the new host is present, appended once if it was new |
| `State.StateHandler.RemovePeer` | src/app/state-handler.ts:40-54 | Accepted exactly when an eligible peer other than the removed one took the push. Accepted: exactly that entry goes, the others keep their order, and the time is adopted. Rejected: nothing changes |
| `State.StateHandler.AddJob` | src/app/state-handler.ts:56-78 | Accepted: one job is appended with the least free id, first run one interval after its start and a fresh round; earlier jobs are untouched. Rejected: nothing changes |
| `State.StateHandler.RemoveJob` | src/app/state-handler.ts:80-94 | Accepted: exactly that job is removed and the time is adopted. Rejected: jobs, peers and time are unchanged |
| `State.StateHandler.HandleJobDone` | src/app/state-handler.ts:202-206 | Only that job changes: one interval later, with an empty round and no own vote |
| `State.StateHandler.ExtraJob` | src/app/state-handler.ts:188-200 | With no own vote nothing changes; otherwise the votes are emptied and the own vote is reset |
| `State.StateHandler.GetVotes` | src/app/state-handler.ts:154-168 | A missing or zero own vote is drawn anew; the collected votes are unchanged |
| `State.StateHandler.ExecuteJob` | src/app/state-handler.ts:170-186 | Runs exactly when the own vote equals the maximum of the votes and the endpoint answered. It then completes the round and sends one DONE notice per online peer, with the advanced time; otherwise nothing changes |
| `App.IndexOfJob` | src/app/app.ts:384-390 | None exactly when no job has the id; otherwise the first such position |
| `App.IndexOfRound` | src/app/app.ts:376-382 | None exactly when no round has the id; otherwise the first such position |
| `App.LastIndexOfHost` | src/app/app.ts:171-179 | The last peer with the host (the one the filter callback leaves in `peerToRemove`), or none |
| `App.LastIndexOfJob` | src/app/app.ts:218-226 | The last job with the id (the one the filter callback leaves in `jobToRemove`), or none |
| `App.RemovalMask` | src/app/app.ts:172-181 | REMOVE_PEER pushes to the other peers whose host is not the removed one |
| `App.RemovalOutcome` | src/app/app.ts:336-340 | That broadcast is accepted exactly when such a peer took it; rejected, no peer changed |
| `App.ServerApp.constructor` | src/app/app.ts:26-33 | Version 1, no own host, update time 0, no peers, jobs or rounds |
| `App.ServerApp.GetPeers` | src/app/app.ts:264-266 | An order-preserving sublist holding exactly the peers other than the own host, each with all its copies |
| `App.ServerApp.HandleSync` | src/app/app.ts:115-135 | Peers, jobs, time and own host are adopted, and EVERY peer with the own host is ONLINE; nothing else changes |
| `App.ServerApp.HandleAddNewPeer` | src/app/app.ts:145-166 | A known host changes nothing. Otherwise it is accepted exactly when another peer or the new one took the push. Accepted: the new peer is appended and its host occurs once. Rejected: nothing changes |
| `App.ServerApp.HandleRemovePeer` | src/app/app.ts:168-189 | An unknown host changes nothing. Otherwise, accepted exactly when a peer without that host took the push; then the last peer with the host is removed |
| `App.ServerApp.ChooseNewJobId` | src/app/app.ts:354-362 | The least positive id no job uses |
| `App.ServerApp.HandleAddNewJob` | src/app/app.ts:190-214 | Accepted: the new job (least free id, one interval after start) and a fresh tracked round are appended and the time adopted. Rejected: nothing changes |
| `App.ServerApp.HandleRemoveJob` | src/app/app.ts:215-235 | Accepted: the last job with the id is removed, or, with none, the last job. Rejected: nothing changes |
| `App.ServerApp.HandleVote` | src/app/app.ts:84-100 | For a job due at `exe` with a tracked round, the own vote (drawn if absent) is answered and stored; otherwise nothing changes and there is no answer |
| `App.ServerApp.HandleDone` | src/app/app.ts:101-114 | The round completes exactly when the job exists and is due at `exe`; otherwise nothing changes |
| `App.ServerApp.HandleJobDone` | src/app/app.ts:449-455 | One interval later. The first tracked round of the job, or the last round when it has none, is dropped, and a fresh one is appended |
| `App.ServerApp.UpdatePeerStatus` | src/app/app.ts:286-313 | Only that peer's status changes, to the heartbeat classification |
| `WebSocket.XorInvolutive` | src/socket-handler.ts:138-140 | XOR with the same mask byte twice gives the byte back |
| `WebSocket.BigEndianRoundTrip` | src/socket-handler.ts:121-126 | Reading back the big-endian bytes of a number that fits gives the number |
| `WebSocket.UnmaskInvolutive` | src/socket-handler.ts:135-141 | Masking twice with the same key gives the payload back |
| `WebSocket.HeaderLayout` | src/socket-handler.ts:106-128 | A found layout has a payload offset within the buffer, at least 6 when masked |
| `WebSocket.Extract` | src/socket-handler.ts:133-141 | The payload taken has the announced length |
| `WebSocket.Decode` | src/socket-handler.ts:80-148 | Fewer than 2 bytes: incomplete. Rejected exactly for a bad first byte. Apart from a payload the buffer is unchanged; a payload consumes only a prefix of at least 2 bytes |
| `WebSocket.LengthCode` | src/socket-handler.ts:176-188 | A 7-bit code; lengths below 126 are their own code |
| `WebSocket.ExtendedLength` | src/socket-handler.ts:176-188 | 0, 2 or 8 extension bytes by length |
| `WebSocket.MetaData` | src/socket-handler.ts:165-200 | The header length is 2 + 0/2/8 + 4 if masked. Byte 0 is FIN·128 + opcode, byte 1 is mask·128 + the length code, and the mask key ends the header |
| `WebSocket.FirstByteOfEncoded` | src/socket-handler.ts:171 | The first byte of an encoded frame passes the decoder's first-byte tests |
| `WebSocket.ExtendedLengthRoundTrip` | src/socket-handler.ts:178-187 | The 16-bit or two 32-bit length fields read back as the length |
| `WebSocket.EncodedHeader` | src/socket-handler.ts:162-189 | An encoded header reads back as the payload length, the mask bit and the header length |
| `WebSocket.EncodedPayload` | src/socket-handler.ts:191-200 | The bytes after an encoded header unmask to the payload, followed by what came after the frame |
| `WebSocket.DecodeEncoded` | src/socket-handler.ts:152-159 | Decoding an encoded frame, whatever follows it, gives back the payload, masked or not, and consumes exactly the frame |
| `WebSocket.DecodeExtends` | src/socket-handler.ts:129-142 | Bytes arriving after a whole frame do not change its decoding; they only join the rest |
| `WebSocket.SocketHandler.constructor` | src/socket-handler.ts:9 | The buffer starts empty |
| `WebSocket.SocketHandler.DecodeFrame` | src/socket-handler.ts:80-148 | The frame returned and the new buffer are the decoding step of the old buffer |
| `WebSocket.CheckFirstByte` | src/socket-handler.ts:87-104 | Valid exactly when the RSV bits are clear, the opcode is known, and a control frame has FIN |
| `WebSocket.ReadLayout` | src/socket-handler.ts:106-128 | Reads the layout the header describes |
| `WebSocket.ExtractPayload` | src/socket-handler.ts:133-141 | The unmasking loop yields the payload bytes, each XORed with `mask[i % 4]` when masked |
| `WebSocket.CopyInto` | src/socket-handler.ts:180-194 | Writes the bytes at the offset and leaves every other byte as it was |
| `WebSocket.GenerateMetaData` | src/socket-handler.ts:162-203 | A fresh header equal to `MetaData`; the payload is masked in place exactly when masking |
| `WebSocket.MaskInPlace` | src/socket-handler.ts:196-198 | Each payload byte is XORed in place with `mask[i % 4]` |
| `WebSocket.EncodeFrame` | src/socket-handler.ts:152-159 | A final text frame: the header followed by the (masked) payload |
| `WebSocket.EncodeThenDecode` | src/socket-handler.ts:152-159 | What one `encodeFrame` sends, one `decodeFrame` takes back |
| `Requests.DigitRun` | src/requests.ts:51 | The greedy run of digits from a position: all digits, ended by a non-digit or the end |
| `Requests.PortMatchFrom` | src/requests.ts:67 | The first position where `:` is followed by a digit, or none |
| `Requests.IndexOfFrom` | src/requests.ts:71 | The first occurrence of the pattern, or -1 when there is none |
| `Requests.IndexOfChar` | src/requests.ts:75 | The first occurrence of the character, or -1 when there is none |
| `Requests.PortOf` | src/requests.ts:67-70 | None exactly when no `:` is followed by a digit; otherwise the whole digit run after the FIRST `:` that is followed by a digit |
| `Requests.PortColonStays` | src/requests.ts:67-72 | When the port digits do not occur before the match, exactly they are removed and the matched `:` stays in place |
| `Requests.RemoveFirst` | src/requests.ts:71 | The first occurrence of the digit string is cut out; with none the string is unchanged |
| `Requests.ParseRest` | src/requests.ts:67-93 | Host and path joined give the remainder without the port digits. The host has no `/`, and the path starts with `/`; it is absent exactly when there is no `/` |
| `Requests.ParseUrl` | src/requests.ts:48-94 | Throws exactly when neither scheme prefix matches; secured exactly for `https://` |
| `Requests.SchemeStripped` | src/requests.ts:57-65 | The rest is parsed after the scheme prefix is removed |
| `Requests.IndexOfFromFirst` | src/requests.ts:71 | A position with an occurrence and none before is what `indexOf` finds |
| `Requests.IndexOfCharFirst` | src/requests.ts:75 | A position with the character and none before is what `indexOf` finds |
| `Requests.PortLeavesColonInHost` | src/requests.ts:67-82 | `http://a:1/b` parses to host `a:`, port `1`, path `/b` |
| `Requests.PortDigitsRemovedFirstWhereTheyOccur` | src/requests.ts:67-72 | `http://8:8` parses to host `:8`, port `8`, no path |

## Left out

- HTTP routing, JSON parsing and serialisation, and the request helpers are
  I/O. Only the handlers' effects on state are modelled. This covers
  `createServer`, `makeRequest`, `kill`/`killPeer` and FORCE_DEATH's
  `process.exit`. Response bodies and status codes are not modelled, and a
  handler that throws is modelled as making no change.
- Timers are ambient scheduling. Rounds appear as plain fields, without their
  timeout handles. This covers `setTimeout`/`clearTimeout`, the timers armed by
  `createCurrentJob`, `clearCurrentJob` and the heartbeat interval.
- Concurrency is not modelled. The `Promise.all` fan-out and the race between
  a push and its timeout become one given outcome per peer. Methods run one at
  a time, so nothing changes the state during a broadcast.
- The random numbers and the endpoint result are parameters:
  - `Math.random` in the vote draws and `randomInteger`;
  - the WebSocket mask key;
  - whether a job's endpoint call succeeded.
- `sendHeartBeats` and its DESYNC re-sync loop are left out: the loop is timer
  driven. One heartbeat's effect is modelled by `updatePeerStatus`.
- The getVotes, executeJob and extraJob of `app.ts` are left out. They are
  timer callbacks like the state handler's, which are modelled.
- `handle`, `broadcast` and `removeSocket` of the socket handler are socket
  I/O. The receive loop in `handle` never ends while a frame is incomplete.
- `decodeFrame` returns `payload.toString()`, which decodes the bytes as
  UTF-8. The model returns the payload bytes instead, because decoding text is
  not modelled.
- JavaScript numbers are doubles. Timestamps, votes and frame lengths are
  unbounded integers here, so neither the 2^53 precision limit of the 64-bit
  length nor float rounding is modelled.
- WebSocket.GenerateMetaData: requires a payload shorter than 2^64 bytes.
  Above that, `writeUInt32BE` throws on the high half of the length, and
  that error path is not modelled.
- WebSocket.EncodeFrame: has the same requirement of fewer than 2^64
  bytes, and takes the payload as bytes. The conversion of the string by
  `Buffer.from` is not modelled.
- `State.StateHandler.RemovePeer` and `State.StateHandler.RemoveJob`: take
  the position of the object to remove, which `indexOf` must find. Passing an
  object that is not in the list is not modelled.
- Jobs.Job.GetMyVote: requires the job to have a round. Without one, the
  source throws a TypeError, which is not modelled.
- Jobs.Job.GetWinnerVote: has the same requirement of a round.
- The browser clients, the bootstrap code, the logger and the build
  configuration are not part of this model.
