# Verified model of homekit-rtsp-proxy

The proxy turns a HomeKit camera's encrypted, lossy packet stream into a clean RTSP stream. This
project models its state machines and codecs in Dafny and proves what they guarantee over whole runs:
every packet history, every interleaving, every byte string. `dafny verify dfyconfig.toml` checks it.

| files | component |
|---|---|
| Seqs, Endian, Rtp | sequences, little-endian integers, RTP packets and H.264 payload tests |
| FrameAssembler, FrameRuns, FrameRecovery, VideoLoop | the frame assembler of the video read loop: on values, over runs, after a loss, in place |
| RtspServer, RtspServerObject | renumbering across camera sessions, the IDR cache and its injection |
| AnnexB | RTP payload format of RFC 6184 (sections 5.6, 5.7.1 and 5.8), the snapshot byte stream |
| Pipeline | assembler, server, late joiner and snapshot in a row |
| Session, SessionObject | the stream lifecycle under concurrent clients, timers and restarts |
| SessionTimers, SessionClients | the warm window and shutdown; whom the client count stands for |
| Tlv8, SetupEndpoints | the TLV8 codec and the nested SetupEndpoints exchange |
| EncryptedConn, EncryptedFrames, EncryptedLink | framed AEAD connection; its bytes for a foreign peer; two ends with a network in between |
| HapClient, HapClientObject | requests, responses and EVENTs on one connection |
| PcmRing | the PCM accumulator between the two audio codecs |
| Health, HealthTopics, HealthReporter | the two health sensors of every camera, what the broker retains of them, the objects |
| PullPoint, PullPointManager | long-poll event queue and subscription table |

Each component has a description on values (datatypes and step functions) about which the run-level
lemmas are proved. Code that updates state in place is a class or a loop whose `ensures` equates its new
state with that description (the read loop over its assembler, a subscription over its queue; the
subscription table and the transcoder state their new contents directly). Concurrent code is a transition system with one atomic step per region
under a lock or per channel operation; the lemmas quantify over every interleaving.

Parameters stand for what the code gets from outside: decrypted packets, clock readings, decoder and
encoder results, how much the transport accepts. ChaCha20-Poly1305 (section 2.8 of RFC 8439) is a pair of
functions with an inverse law and a 16-byte length law. Bytes are integers below 256, RTP fields wrap at
2^16 and 2^32, nonce counters at 2^64, gain products at 2^32; counters that only accumulate are unbounded.

## What the proofs found

Several plausible claims hold only under a condition; the condition is proved exact where stated.

- A forwarded frame may lack its first packets. On consecutively numbered streams of ordinary frames every
  delivery forwards whole frames only, if and only if every packet inside a frame that looks like a frame
  start, with at most 300 packets to the end, begins a copy of a whole frame (`WholeFramesIff`).
- Whenever another packet than the true successor carries the next number, the part of a frame received so
  far can be forwarded without the rest (`WrongSuccessorLeaksHead`). On a consecutively numbered stream,
  when a packet with another timestamp follows, that happens if and only if the packets in between, counted
  forwards or backwards, make whole cycles of 65536 (65536 lost, 131072 lost, or none lost and a packet
  from 65535 places earlier); neither the drop count nor the gap flag notices it (`CutGoesUnnoticedIff`).
- The drop count is the net loss less 65536 for every cycle skipped forwards, plus 65536 for every one
  stepped back, under any loss, reordering and duplication (`DropCountIsNetLoss`). As long as no step exceeds
  a cycle, it is the net loss if and only if no packet arrives at or behind its predecessor
  (`DropCountReordered`); exchanging two neighbours anywhere in a run adds a cycle (`SwapCountsACycle`).
- The frame behind a lost marker, received without a gap from some payload on, is forwarded if and only if that
  payload is the first of a NALU, aggregate or fragmented NALU; a whole frame always is, and one that lacks its
  first NALUs can be (`NextCameraFrameIff`).
- The client count reaches -1 if and only if a start fails after its only client left, and a stream
  is left running for nobody, with no timer to stop it, if and only if a start or restart completes at
  count 0 while no callback is pending (`ClientCountBounds`, `StrandedIff`).
- The client count is the number of attached clients if and only if no client connects twice, no start fails
  after its client left, nobody closes a session without being attached while others are, and no restart
  succeeds after that number changed (`CountIsRosterIff`). Closing a session always counts as a
  disconnect (internal/stream/rtsp_server.go lines 589-593), so a client whose start failed, or one that
  never played, can stop the stream under another (`FailedClientCutsOff`, `VisitorCutsOff`).
- A stale idle-timer callback is pending at some time if and only if the last client left while an earlier
  callback was still to come, and then that callback can end the new warm window at once
  (`StaleCallbackIff`, `OverlapCutsShort`).
- A successful restart puts back the client count it was entered with, so a client that attached
  meanwhile is forgotten and can be cut off (`RestartRestoresCount`, `RestartForgetsClient`).
- A shutdown during a start changes nothing but the idle timer: if the start succeeds, the stream is up after
  the shutdown (`ShutdownMissesStart`).
- After one request timeout every later request is handed the reply to an earlier one, for the rest of the
  connection (`RepliesLagByTimeouts`). Without a further request the reader of a living connection can come
  to a stall if and only if two requests have returned no response (`StallReachableIff`), and then no EVENT
  is read until the next request (`StalledUntilNextRequest`).
- Encoder errors fill the PCM accumulator. With decoded frames of at most d samples, all multiples of g, e
  errors can make it overflow if and only if d exceeds the encoder's frame or (e + 1) d > 2 size + g
  (`OverflowIff`). For AAC-LC frames of 1024 samples that takes four errors with AAC-ELD frames of 480 and
  five with 512 (`AacOverflowIff`). Then every following frame that does not fit is rejected for good
  (`OverflowWedges`).
- A gain outside -65535..65536 wraps in 32 bits instead of clamping (`GainSaturatesIff`).
- A single failed start with no further attempt is flagged as a stream problem (`OneFailureIsEnough`), but
  the retained attributes go on showing the time of an earlier change: their since-time is out of date if and
  only if a tick raised the flag and no result or connect came after (`SinceIsCurrentIff`, `TickRaisesUnseen`).
- A new start leaves the last session's loss on the drop sensor's attribute topic until the next sample or
  connect (`StartLeavesDropAttributes`).
- A token outlives its events if and only if some pull takes events whose token is still due
  (`StaleTokenIff`). A pull that returns empty before its timeout needs a state that arises if and only if
  some pull takes events that a token or another woken pull counts on, and every such state allows one
  (`BrokenIff`, `BrokenPromiseShows`).

## Where code and documentation differ

The model follows the code.

- DESIGN.md line 465 gives the event queue 10 places; internal/hap/hap_client.go line 56 gives it 16.
- DESIGN.md line 268 writes address version 1 for IPv4; internal/hap/camera.go line 220 writes 0.
- internal/hap/tlv8.go line 54 announces that consecutive items of one type are merged; the code merges
  only a fragment of 255 bytes or one behind a value whose length is a multiple of 255.
- internal/stream/audio_transcoder.go line 128 says that gain 0 mutes; lines 479-480 pass samples through.
- DESIGN.md line 570 speaks of periodic IDR injection; the code injects once per PLAY.

## Model

| member | source | states |
|---|---|---|
| FrameAssembler.Conservation | internal/stream/proxy.go:409-475 | in every run each accepted packet is buffered or in exactly one emptied batch, in arrival order; the buffer never exceeds 300; dropped frames count the gapped batches; reports plus the unreported remainder are the running totals |
| FrameAssembler.ReportsAreTotals | internal/stream/proxy.go:456-475 | in every run the reports together are the number of packets, of drops and of dropped frames at the moment of the last one, each in its own field |
| FrameAssembler.DropCountModulo | internal/stream/proxy.go:366-401 | under any loss, reordering and duplication: first number + packets - 1 + drops is the last number modulo 2^16 |
| FrameAssembler.GapEventsAreJumps | internal/stream/proxy.go:378-401 | the gap count is the number of packets that do not carry the number after their predecessor's |
| FrameAssembler.DropCountIsNetLoss | internal/stream/proxy.go:366-401 | under any loss, reordering and duplication: the drop count is last minus first unwrapped number minus the steps, less 65536 for every whole cycle in the steps (forwards positive, backwards negative) |
| FrameAssembler.DropCountReordered | internal/stream/proxy.go:378-401 | if no step exceeds a cycle either way: the count is that net loss plus 65536 for every packet at or behind its predecessor, so it is the net loss if and only if there is none |
| FrameAssembler.DropCountExact | internal/stream/proxy.go:378-401 | for in-order delivery the drop count never exceeds the true loss and equals it if and only if no single loss reaches 65536 packets |
| FrameAssembler.SwapCountsACycle | internal/stream/proxy.go:380-386 | in any run, exchanging two neighbours that arrive in order, with their outer neighbours no further than a cycle away, adds exactly 65536 drops |
| FrameRuns.ForwardedAreFrameTails | internal/stream/proxy.go:366-497 | under any loss, reordering and duplication, a forwarded batch is a sent frame from its first packet, or from a later one that passes isFrameStart, up to the marker |
| FrameRuns.ForwardedAreWholeFrames | internal/stream/proxy.go:407-452 | if only a frame's first packet passes isFrameStart, every forwarded batch is a complete sent frame |
| FrameRuns.WholeFramesIff | internal/stream/proxy.go:407-452 | on consecutively numbered streams of at least two frames of 2 to 32767 packets, neighbours with different timestamps: every delivery forwards only whole frames if and only if every inner frame start with at most 300 packets to the end begins a copy of a whole frame |
| FrameRuns.InnerStartLeaksTail | internal/stream/proxy.go:432-436 | a tail of at most 300 consecutively numbered packets that begins with an inner frame start is forwarded alone by some delivery, behind the first packet of a frame of several packets whose timestamp differs and whose number is not adjacent |
| FrameRuns.InnerStartLeaksBehindFrame | internal/stream/proxy.go:432-436 | on a consecutively numbered stream the numbers matter only in that no whole cycles lie between the two |
| FrameRuns.WrongSuccessorLeaksHead | internal/stream/proxy.go:380-413 | the delivery condition is needed: wherever a frame of consecutive numbers is cut short within 300 packets and the next packet carries the next number without being the successor, the packets so far are forwarded alone if the timestamps differ, and mixed with the next packet if they agree, it is marked and there is room |
| FrameRuns.NextNumberIff | internal/stream/proxy.go:380-381 | on a consecutively numbered stream a packet carries the number after another's if and only if the packets between them, forwards or backwards, make whole cycles of 65536 |
| FrameRuns.CutGoesUnnoticedIff | internal/stream/proxy.go:380-413 | on such a stream, a frame cut short within 300 packets and followed by a packet with another timestamp: what was received of it is forwarded if and only if that holds, and then drop count and gap count are still zero |
| FrameRuns.CycleLossIsPossible | internal/stream/proxy.go:380-388 | streams with a loss of this kind exist |
| FrameRuns.BatchesAreFrames | internal/stream/proxy.go:409-497 | for any arrivals: every emptied batch has 1 to 300 packets of one timestamp with at most the last marked, forwarded ones have consecutive numbers, gapped ones go to the IDR cache exactly when they begin with a STAP-A |
| FrameRuns.LosslessIff | internal/stream/proxy.go:378-496 | from any clean state, gap-free packets are all forwarded or buffered, in order, if and only if no 301 of them run on without a flush point; then no frame is dropped |
| FrameRuns.RecoveryAtMarker | internal/stream/proxy.go:477-496 | whatever was lost before, a marker leaves the loop clean and the gap-free packets behind it are kept to the last |
| Rtp.PayloadTable | internal/stream/proxy.go:513-527 | the payload tests on literal bytes: types 1 to 24, or 28 with the top bit of the second byte, start a frame; the IDR start is such a 28 with low bits 5 |
| FrameRecovery.StartsAreCarriers | internal/stream/proxy.go:513-527 | of NALUs sent alone, aggregated or fragmented, exactly the first payload of each passes isFrameStart |
| FrameRecovery.NextFrame | internal/stream/proxy.go:407-438 | from any state with a broken frame in the buffer, be its last packets lost or earlier ones: a next frame without gaps is forwarded whole if and only if its first payload is empty or a frame start, else dropped; the broken one is dropped or cached |
| FrameRecovery.NextCameraFrameIff | internal/stream/proxy.go:407-438 | the same for any NALUs in any packetisation, received from payload k on: forwarded if and only if payload k is the first of its carrier, as payload 0 is |
| VideoLoop.ReadLoop.Get | internal/stream/proxy.go:344 | the pool hands out a released or a new packet, never one that is still buffered |
| VideoLoop.ReadLoop.Release | internal/stream/proxy.go:123-126 | releasing clears the packet and needs one that was not released before |
| VideoLoop.ReadLoop.CountPacket | internal/stream/proxy.go:366-401 | the sequence-gap accounting in place |
| VideoLoop.ReadLoop.Deliver | internal/stream/proxy.go:411-413 | a callback sees the buffered packets in order, each still owned by the buffer |
| VideoLoop.ReadLoop.ReleaseAll | internal/stream/proxy.go:427-430 | every buffered packet goes back to the pool once, none is lost |
| VideoLoop.ReadLoop.FlushFrame | internal/stream/proxy.go:409-430 | flushing hands on or drops the buffered packets as the assembler says, releases each once and loses none |
| VideoLoop.ReadLoop.EndFrameOnTimestamp | internal/stream/proxy.go:407-438 | a new timestamp ends the frame exactly as in the assembler, gap flag carried over |
| VideoLoop.ReadLoop.CapAndBuffer | internal/stream/proxy.go:440-452 | the cap and the append, with every packet owned by buffer or pool |
| VideoLoop.ReadLoop.ReportStats | internal/stream/proxy.go:456-475 | reports the difference to the last snapshot and moves the snapshot |
| VideoLoop.ReadLoop.EndFrameOnMarker | internal/stream/proxy.go:477-496 | a marker flushes the frame and clears the gap flag |
| VideoLoop.ReadLoop.ReceiveVideo | internal/stream/proxy.go:366-496 | one accepted packet is exactly one assembler step, done in place on pooled packets |
| VideoLoop.ReadLoop.OnDatagram | internal/stream/proxy.go:303-364 | a datagram takes one assembler step if it is from the camera, long enough, not RTCP and decrypts; otherwise the assembler is untouched; foreign, RTCP and undecryptable ones are each counted; no pooled packet is lost |
| VideoLoop.AcceptedIff | internal/stream/proxy.go:317-341 | taken for video are exactly the camera's datagrams of two bytes or more whose second byte is none of 200 to 207, if they decrypt |
| RtspServer.SequenceContinuity | internal/stream/rtsp_server.go:334-354 | over any run of camera packets, injections, resets and stops, writes that overtake a stop included, the k-th emitted packet carries number k mod 2^16 and the SDP's payload type |
| RtspServer.TimestampContinuity | internal/stream/rtsp_server.go:305-354 | within a session timestamp differences equal the camera's modulo 2^32; the first packet of the next session is ahead by the recorded gap of at least 4500 |
| RtspServer.SessionsFollowResets | internal/stream/rtsp_server.go:305-316 | session k begins with the k-th reset that had a camera packet before it, and its recorded gap is that reset's elapsed ticks, or 4500 if they are fewer |
| RtspServer.OutputStartsAtZero | internal/stream/rtsp_server.go:334-354 | in every run the first camera packet emitted has timestamp 0 |
| RtspServer.RepeatedResets | internal/stream/rtsp_server.go:305-316 | resets without a camera packet in between do not move the clock |
| RtspServer.LiveStreamIsCameraStream | internal/stream/rtsp_server.go:372-416 | without the injected packets, the output is every packet that a call seeing the stream wrote before it was closed, payloads and markers in order |
| RtspServer.CacheShape | internal/stream/rtsp_server.go:224-280 | for every input a non-empty cache is an optional STAP-A, then FU-A packets only, the first an IDR start, the last marked; idrReady is closed exactly when it is non-empty |
| RtspServer.IdrUnitIsCached | internal/stream/rtsp_server.go:224-280 | from any cache state an IDR unit leaves exactly its packets in the cache |
| RtspServer.CacheIsLastIdrUnit | internal/stream/rtsp_server.go:224-280 | over any sequence of IDR units and units without an IDR start the cache is always the last IDR unit |
| RtspServer.CacheStartsAfresh | internal/stream/rtsp_server.go:318-324 | in every run the cache is what an empty one makes of the packets handed to it since the last reset cleared it |
| RtspServer.ReadySinceClearIff | internal/stream/rtsp_server.go:224-324 | in every run idrReady is closed if and only if an IDR start and a marked FU-A behind it, with no STAP-A in between, came since the last reset cleared the cache; packets kept and packets injected came since then; while it is open an injection sends nothing |
| RtspServer.LateJoinerGetsIdr | internal/stream/rtsp_server.go:654-682 | once the camera's packets form an IDR unit, a joining client is sent exactly that unit's payloads and markers, in order, at one timestamp |
| RtspServerObject.VideoServer.NormalizeVideoRTP | internal/stream/rtsp_server.go:334-354 | rewrites the header in place as the value-level clock does |
| RtspServerObject.VideoServer.CacheIDRPacket | internal/stream/rtsp_server.go:224-280 | the cache update in place, branch by branch |
| RtspServerObject.VideoServer.WriteVideoPacket | internal/stream/rtsp_server.go:372-416 | after the lookup of the stream: nothing if there was none, else normalise, cache and emit under one lock; a stream closed since the lookup takes nothing, clock and cache move on |
| RtspServerObject.VideoServer.CacheOnlyVideoPacket | internal/stream/rtsp_server.go:362-369 | caches without emitting or renumbering |
| RtspServerObject.VideoServer.ResetVideoClock | internal/stream/rtsp_server.go:305-316 | moves the offset only if packets were seen since the last reset |
| RtspServerObject.VideoServer.ClearIDRCache | internal/stream/rtsp_server.go:318-324 | empties the cache and reopens idrReady |
| RtspServerObject.VideoServer.InjectIDR | internal/stream/rtsp_server.go:654-682 | the injection loop emits the cache with fresh numbers and one timestamp, and nothing into a stream that was closed since the lookup |
| RtspServerObject.VideoServer.WriteUninterrupted | internal/stream/rtsp_server.go:372-416 | lookup and write in a row: the packet goes out if and only if the stream is open |
| RtspServerObject.VideoServer.InjectUninterrupted | internal/stream/rtsp_server.go:654-682 | likewise for the injection |
| AnnexB.BuildIDRAnnexB | internal/stream/snapshotter.go:216-283 | the loops yield the parameter sets and the depacketised NALUs, each behind one start code; with both sets given, the output begins with 00 00 00 01, the SPS, 00 00 00 01, the PPS |
| AnnexB.AppendStapA | internal/stream/snapshotter.go:244-256 | the inner loop appends the aggregated NALUs up to the first empty or oversized entry |
| AnnexB.AppendPacket | internal/stream/snapshotter.go:231-280 | one packet: single NALU, aggregate, or fragment with its start and end bits |
| AnnexB.TakeFragment | internal/stream/snapshotter.go:258-280 | one fragment from any state: a first one starts anew, every one adds its piece, a last one ends the NALU; a stray one continues what was left behind |
| AnnexB.OtherPayloadsAreSkipped | internal/stream/snapshotter.go:231-280 | types 0, 25 to 27 and 29 to 31, a FU-A of one byte and an empty payload leave no trace |
| AnnexB.PayloadKinds | internal/stream/proxy.go:513-527 | of each carrier's payloads exactly the first is a frame start, exactly an aggregate is a STAP-A, and the IDR start is the first fragment of a NALU of type 5 |
| AnnexB.DepacketiserInvertsPacketiser | internal/stream/snapshotter.go:231-281 | NALUs sent alone, aggregated or fragmented anywhere come back complete and in order if and only if none is empty |
| AnnexB.WalkStopsAtEmpty | internal/stream/snapshotter.go:244-256 | of an aggregate the NALUs before the first empty one are recovered |
| AnnexB.TakeFragments | internal/stream/snapshotter.go:258-280 | fragments cut at any points reassemble the NALU, from any leftover state |
| AnnexB.ParseSTAPA | internal/stream/rtsp_server.go:462-484 | on any bytes the loop returns the last entry of type 7 as SPS and the last of type 8 as PPS |
| AnnexB.LastOfTypeIff | internal/stream/rtsp_server.go:473-480 | the last of a type is the NALU of that type behind which there is no other |
| AnnexB.EntriesOfAggregate | internal/stream/rtsp_server.go:462-484 | of an aggregate the entries are the aggregated NALUs, the empty ones before the last included |
| AnnexB.WalkIsEntriesBeforeEmpty | internal/stream/rtsp_server.go:462-484 | on any bytes the snapshot's walk and parseSTAPA see the same entries up to the first empty one |
| AnnexB.ParamSetsOfWalk | internal/stream/rtsp_server.go:462-484 | without empty entries parseSTAPA chooses among exactly the NALUs the walk emits |
| Pipeline.IdrReachesLateJoiner | internal/stream/proxy.go:477-496 | a gap-free IDR unit is forwarded whole by the assembler, cached by the server and replayed to a late joiner packet for packet |
| Pipeline.SnapshotShowsCameraUnit | internal/stream/rtsp_server.go:282-290 | after the camera's IDR unit the snapshot made from the cache is the parameter sets and every NALU of the unit, whatever the server did before |
| Session.LifecycleExclusion | internal/stream/session.go:82-300 | in every interleaving exactly one thread owns the lifecycle while Starting or Stopping and none otherwise, callbacks alternate, stopDone is set exactly while Stopping, every other channel was closed exactly once, no waiter is forgotten |
| Session.WakeMakesProgress | internal/stream/session.go:100-113 | in every run a waiter that wakes attaches, starts the stream, or waits for a later stop, never again for the same one |
| Session.StartsSeparatedByStops | internal/stream/session.go:207-281 | in every interleaving: between two successful starts, however far apart, lies a whole stop; onStop begins only after a successful start; nothing happens inside a callback |
| Session.ClientCountBounds | internal/stream/session.go:121-142 | the count is at least -1, negative only while Idle, and reaches -1 if and only if a start fails at count 0 |
| Session.NonNegativeWithoutDisconnects | internal/stream/session.go:155-186 | the count stays non-negative in runs where no disconnect lands inside a start that then fails |
| Session.StrandedIff | internal/stream/session.go:155-281 | a run streams for nobody with no timer callback pending if and only if a start or restart completes at count 0 with no callback pending |
| Session.IdleStreamHasTimer | internal/stream/session.go:155-205 | without disconnects inside a start and without restarts at count 0, Streaming with no clients always has a callback pending; without warm mode a stream always has a client |
| Session.DisconnectInsideStart | internal/stream/session.go:128-141 | the shortest runs that leave -1 clients and a stranded stream |
| Session.RestartWithoutClients | internal/stream/session.go:234-281 | restarting any warm stream that nobody watches strands it |
| Session.RestartWithoutClientsReached | internal/stream/session.go:155-186 | a run that leads to such a stream |
| SessionTimers.StaleCallbackIff | internal/stream/session.go:86-92 | a run has a callback pending that is not the newest timer's if and only if some last client left a warm stream while an earlier callback was still to come |
| SessionTimers.CallbacksRunOnce | internal/stream/session.go:178-205 | in every run each timer fires at most once, and its callback runs at most once |
| SessionTimers.TimelyStops | internal/stream/session.go:188-205 | unless that happened, only the timer of the last disconnect stops the stream |
| SessionTimers.QuietConnectsKeepTheWindow | internal/stream/session.go:86-92 | it cannot happen if no client connects while a fired callback waits for the mutex |
| SessionTimers.OverlapCutsShort | internal/stream/session.go:178-205 | in every state where it happens, the old callback can stop the stream while the new timer is still armed, and no connect can cancel that timer any more |
| SessionTimers.StaleCallbackStops | internal/stream/session.go:86-92 | for instance after a connect and a disconnect while the callback waits |
| SessionTimers.StaleCallbackReached | internal/stream/session.go:178-205 | a run that leads to such a state |
| Session.RestartRestoresCount | internal/stream/session.go:234-281 | in every interleaving a successful restart puts back the count it was entered with, a failed one leaves none |
| Session.RestartForgetsClient | internal/stream/session.go:246-275 | a client that attaches inside a restart is not counted, and the stream stops under it |
| Session.RestartForgetsClientReached | internal/stream/session.go:115-142 | a run that leads to such a restart |
| SessionTimers.ShutdownQuiesces | internal/stream/session.go:285-299 | from a shutdown of a stream that is up to the end of its onStop, in every interleaving: Stopping with no clients throughout, then Idle with no clients; no timer is armed, unless a window was opened over a pending callback before |
| SessionTimers.ShutdownMissesStart | internal/stream/session.go:285-299 | a shutdown during a start only cancels the timer; in every interleaving the start runs to its end, and the stream is up if it succeeds |
| SessionClients.CountIsRosterIff | internal/stream/session.go:82-281 | in every interleaving, with any clients behind the calls: the count is the number of attached clients throughout if and only if none of four things happens (connected twice, failed start without its client, close by one not attached, restart across a change) |
| SessionClients.NobodyIsCutOff | internal/stream/session.go:155-205 | then a disconnect or an idle timer stops the stream only when nobody is attached, and without warm mode the last one to leave always stops it |
| SessionClients.FailedClientCutsOff | internal/stream/rtsp_server.go:589-634 | a run in which a client whose start failed stops the stream under another by closing |
| SessionClients.VisitorCutsOff | internal/stream/rtsp_server.go:589-593 | a run in which a client that never played does |
| SessionObject.SessionState.ClientConnected | internal/stream/session.go:82-129 | one pass of the loop up to its unlock changes the fields as the transition system does and returns what to do next |
| SessionObject.SessionState.OnStartReturned | internal/stream/session.go:133-142 | the region after onStart |
| SessionObject.SessionState.EnterStopping | internal/stream/session.go:212-216 | stopLocked up to its unlock |
| SessionObject.SessionState.OnStopReturned | internal/stream/session.go:220-227 | stopLocked after onStop, closing its channel |
| SessionObject.SessionState.ClientDisconnected | internal/stream/session.go:155-186 | decrements, arms the idle timer or begins the stop |
| SessionObject.SessionState.IdleTimerFired | internal/stream/session.go:189-205 | stops only if nobody connected meanwhile; forgets the timer in any case |
| SessionObject.SessionState.RestartBegins | internal/stream/session.go:234-250 | first region of Restart, saving the count |
| SessionObject.SessionState.RestartOnStopReturned | internal/stream/session.go:259-263 | second region of Restart |
| SessionObject.SessionState.RestartOnStartReturned | internal/stream/session.go:265-276 | third region: restores the saved count or gives up |
| SessionObject.SessionState.ShutdownBegins | internal/stream/session.go:285-299 | cancels the timer and begins the stop if streaming |
| Tlv8.TLV8Encode | internal/hap/tlv8.go:17-32 | the nested loops produce the wire form of the fragments of all items |
| Tlv8.EncodeLayout | internal/hap/tlv8.go:17-32 | the bytes: type, length, value; a value over 255 bytes behind fragments of 255, each with the type and 255 in front |
| Tlv8.TLV8Decode | internal/hap/tlv8.go:34-66 | the reading loop parses fragments to the end or fails, and merges them in order |
| Tlv8.AddFragment | internal/hap/tlv8.go:54-62 | the three branches merge a fragment or start a new item |
| Tlv8.DecodeSucceedsIff | internal/hap/tlv8.go:34-66 | decoding succeeds exactly on sequences of whole fragments |
| Tlv8.DecodeErrorIff | internal/hap/tlv8.go:34-66 | the length error if and only if the data ends behind a type, the value error if and only if it ends inside a value |
| Tlv8.RoundTripIff | internal/hap/tlv8.go:17-66 | decoding an encoding always succeeds and gives the items back if and only if every adjacent same-type pair has a first length that is no multiple of 255 and a second value under 255 bytes |
| Tlv8.DistinctTypesRoundTrip | internal/hap/tlv8.go:17-66 | items whose neighbours have different types always round-trip |
| Tlv8.TLV8GetBytes | internal/hap/tlv8.go:69-76 | returns the value of the first item of the type, and None exactly if there is none |
| Tlv8.TLV8GetByte | internal/hap/tlv8.go:79-85 | succeeds exactly on a present, non-empty value and returns its first byte |
| SetupEndpoints.SetupEndpointsRoundTrip | internal/hap/camera.go:218-313 | decoding a request recovers session ID, ports, keys, salts and address text, with status 0, for every address text |
| SetupEndpoints.ReplyRoundTrip | internal/hap/camera.go:258-313 | so does decoding a reply with any status and any trailing items of other types |
| SetupEndpoints.RequestNamesFamilyAndSuite | internal/hap/camera.go:218-248 | a request carries address family 0 or 1 under 3.1 and cipher suite 0 under 4.1 and 5.1 |
| SetupEndpoints.RequestBytes | internal/hap/camera.go:218-254 | the request byte for byte, tags and lengths written out, for address texts of up to 242 characters |
| SetupEndpoints.ReplyBytes | internal/hap/camera.go:258-313 | a reply with any status, byte for byte, is decoded to its fields |
| SetupEndpoints.ResponseFields | internal/hap/camera.go:258-313 | any bytes: rejected if and only if the outer list is malformed, else every field is what its numbered tag holds, and empty if that is absent, ill-sized or inside something malformed |
| SetupEndpoints.DecodeStreamResponse | internal/hap/camera.go:258-313 | fills the response field by field; a missing or malformed nested list leaves its fields empty; only a malformed outer list is an error |
| SetupEndpoints.DecodeAddress | internal/hap/camera.go:276-292 | address text and ports of the nested list; absent or ill-sized ones stay empty |
| SetupEndpoints.DecodeSrtp | internal/hap/camera.go:294-302 | key and salt of a nested list |
| Endian.LittleEndianRoundTrip | internal/hap/camera.go:225-228 | every value that fits the width is read back |
| Endian.TwoBytes | internal/hap/encrypted_conn.go:82-83 | two bytes are written lowest first |
| Endian.TwoByteValue | internal/hap/encrypted_conn.go:126 | and read lowest first |
| EncryptedFrames.NonceLayout | internal/hap/encrypted_conn.go:89-91 | a nonce is four zero bytes, then eight whose sum of digits, lowest first, is the counter modulo 2^64 |
| EncryptedFrames.WriteSendsFrames | internal/hap/encrypted_conn.go:68-108 | a Write byte for byte, wherever the transport gives up: texts of 1024 bytes and a rest, each as two length bytes and the text sealed under the nonce of its number with the length as associated data; the count covers the whole frames, and every frame begun has used up its number |
| EncryptedFrames.ReadTakesFrame | internal/hap/encrypted_conn.go:111-150 | a Read byte for byte: buffered text first, else a whole frame opened under the nonce of the counter, consumed and counted even if it does not open; without a whole frame the stream has ended |
| EncryptedConn.Conn.Write | internal/hap/encrypted_conn.go:68-108 | cuts the data into frames, seals and sends them, and on a transport error stops with the bytes sent, the count returned and the nonce spent as specified |
| EncryptedConn.Conn.SendFrame | internal/hap/encrypted_conn.go:75-101 | one pass: length, nonce, seal, with the state a transport error leaves behind |
| EncryptedConn.Conn.Read | internal/hap/encrypted_conn.go:111-150 | serves the buffer first, else opens the next frame; fills the caller's slice from the front and nothing beyond |
| EncryptedConn.WriteMayWrap | internal/hap/encrypted_conn.go:89-92 | a wrapped 64-bit counter sends the same bytes as an unbounded one |
| EncryptedConn.ReadMayWrap | internal/hap/encrypted_conn.go:134-137 | likewise for reading |
| EncryptedLink.WriteSealsChunks | internal/hap/encrypted_conn.go:74-107 | a successful Write puts exactly the sealed chunks on the wire; a failed one leaves a prefix of them |
| EncryptedLink.NextFrameOpens | internal/hap/encrypted_conn.go:121-143 | a reader in step either lacks part of the next frame or opens it to its plaintext |
| EncryptedLink.StreamRefinement | internal/hap/encrypted_conn.go:68-150 | over any writes, arrivals, losses of the tail and reads: bytes read are a prefix of bytes written, no frame fails to decrypt, the writer's counter is the reader's plus the unopened frames, frames hold 1 to 1024 bytes |
| EncryptedLink.ReadMakesProgress | internal/hap/encrypted_conn.go:111-150 | once everything arrived, a Read returns at least a byte unless all was read |
| EncryptedLink.NonceRepeatsIff | internal/hap/encrypted_conn.go:89-92 | two frames share a nonce if and only if their numbers agree modulo 2^64 |
| HapClient.RequestsGetTheirResponses | internal/hap/hap_client.go:258-290 | without timeouts and connection errors request k returns the k-th non-EVENT message, respCh holds at most one result and the reader never blocks, however EVENTs interleave |
| HapClient.RepliesLagByTimeouts | internal/hap/hap_client.go:279-289 | in every run a request gets the response that lags by the number of earlier requests without one; its own if and only if there was none |
| HapClient.LateReplyGoesToNextRequest | internal/hap/hap_client.go:279-289 | a timeout and its late reply, as enabled steps from any idle client: the next request is handed that reply |
| HapClient.StalledUntilNextRequest | internal/hap/hap_client.go:116-123 | a reader blocked on a full respCh reads no EVENT until the next request |
| HapClient.StallNeedsTwoTimeouts | internal/hap/hap_client.go:116-123 | in every run a stalled client has at least two requests without a response, one if its connection failed |
| HapClient.TwoLateRepliesStall | internal/hap/hap_client.go:116-123 | two timeouts with late replies, as enabled steps, bring any idle client there |
| HapClient.StallReachableIff | internal/hap/hap_client.go:68-123 | from any state of any run with a living connection and no request waiting: without another request a stall on the living connection can be reached if and only if two requests returned no response, and any stall if and only if one did |
| HapClient.EventsAreConserved | internal/hap/hap_client.go:107-115 | the event queue never exceeds 16; every parsed EVENT is taken, queued or counted lost; without loss they arrive complete and in order |
| HapClient.EventsAreThePeers | internal/hap/hap_client.go:68-115 | in every run the EVENTs read, then those on the wire, are exactly the well-formed EVENTs the peer sent, in order; malformed ones add nothing |
| HapClient.EventLostIff | internal/hap/hap_client.go:107-115 | an EVENT is lost if and only if it is read while exactly 16 wait, which stay as they are; otherwise it joins them at the end |
| HapClient.OutcomesAreCounted | internal/hap/hap_client.go:258-290 | in every run every request issued has returned or waits; as many time out as timers ran out, as many find the connection closed as saw the reader gone, and at most one returns the read error |
| HapClientObject.ClientState.ReadMessage | internal/hap/hap_client.go:68-115 | the reader's treatment of one message, in place |
| HapClientObject.ClientState.OfferResult | internal/hap/hap_client.go:116-123 | the send to respCh, and the exit after an error |
| HapClientObject.ClientState.ReceiveResult | internal/hap/hap_client.go:279-284 | a request takes a result and releases the mutex |
| HapClientObject.ClientState.GiveUp | internal/hap/hap_client.go:285-289 | a request times out or sees the connection closed; respCh is left as it is |
| HapClientObject.ClientState.BeginRequest | internal/hap/hap_client.go:258-277 | takes the mutex and writes the request; if the write fails the mutex is free again and nothing else has changed |
| HapClientObject.ClientState.ConnectionFails | internal/hap/hap_client.go:69-73 | a read error is offered as the last result |
| HapClientObject.ClientState.NextEvent | internal/hap/hap_client.go:251-254 | the consumer takes the oldest event |
| PcmRing.Transcoder.TranscodeFrame | internal/stream/audio_transcoder.go:439-526 | decode error, overflow, accumulation, encode error and shift in place; the encoder's frame followed by the ring is the old ring followed by the amplified samples |
| PcmRing.Transcoder.ApplyGain | internal/stream/audio_transcoder.go:480-490 | the gain loop amplifies exactly the decoded samples |
| PcmRing.Transcoder.Accumulate | internal/stream/audio_transcoder.go:492-493 | appends the decoded samples behind the valid prefix |
| PcmRing.Transcoder.Shift | internal/stream/audio_transcoder.go:512-517 | the overlapping move keeps what is behind the encoded frame |
| PcmRing.GainSaturatesIff | internal/stream/audio_transcoder.go:477-489 | amplification is multiplication clamped to 16 bits on every sample if and only if the 32-bit gain lies in -65535..65536; gain 0 passes samples through |
| PcmRing.SaturatedProduct | internal/stream/audio_transcoder.go:480-490 | for every such gain but 0: the product, or 32767 or -32768 if it lies beyond |
| PcmRing.GainWraps | internal/stream/audio_transcoder.go:480-490 | gains that agree modulo 2^32 amplify alike, 0 itself excepted |
| PcmRing.CallOutcome | internal/stream/audio_transcoder.go:439-526 | by counts of samples: what a call accepts, when it is an overflow, and when the encoder takes a frame |
| PcmRing.FifoAlways | internal/stream/audio_transcoder.go:473-517 | in every run, whatever fails, the accepted amplified samples are the consumed frames of exactly encFrameSize samples followed by the ring |
| PcmRing.NoOverflow | internal/stream/audio_transcoder.go:473-517 | if decoded frames have at most d <= size samples, a multiple of g, then e encoder errors leave at most size - g + e d samples, and nothing overflows while (e + 1) d <= 2 size + g |
| PcmRing.OverflowIff | internal/stream/audio_transcoder.go:473-510 | frames of at most d samples, multiples of g, can overflow with e encoder errors if and only if d > size or (e + 1) d > 2 size + g |
| PcmRing.ConstantFramesOverflow | internal/stream/audio_transcoder.go:473-510 | frames of one length d and an encoder that fails from the start overflow after 3 size / d - (size - 1) / d errors |
| PcmRing.AacOverflowIff | internal/stream/audio_transcoder.go:126-136 | with frames of always 480 samples against 1024 an overflow takes four errors, with 512 five |
| PcmRing.OverflowWedges | internal/stream/audio_transcoder.go:473-475 | frames that do not fit change nothing, however many follow |
| Health.DropSensorIsHistory | internal/health/health.go:402-452 | in every run the streak clocks are the first times of the maximal high and low suffixes since the last start, a sample being high if drops >= threshold * (packets + drops) and low if it is not and twice the drops are at most that; the sensor is on if and only if some sample completed a high streak of DropWindow and none since a low one of DropClearWindow |
| Health.SideOfLoss | internal/health/health.go:402-437 | the comparisons of the loss with the threshold and with half of it are these comparisons of counts; an empty sample is low at a positive threshold and high otherwise |
| Health.StreamSensorIsHistory | internal/health/health.go:359-397 | firstFail and failCount describe the maximal failure streak since the last success with gaps up to staleGap; the sensor is on if and only if some failure or tick since then found its streak WedgeAfter old |
| Health.StreakIsMaximal | internal/health/health.go:409-435 | the streak of samples is the maximal suffix on one side |
| Health.RunIsMaximal | internal/health/health.go:373-380 | the streak of failures is the maximal suffix with gaps up to staleGap |
| Health.OneFailureIsEnough | internal/health/health.go:340-353 | a single failure is flagged by the first tick WedgeAfter later |
| HealthTopics.PublishedIsCurrent | internal/health/health.go:286-353 | no stale state is on a state topic, and one is there if and only if a connect or a change of its flag published it |
| HealthTopics.FieldsAreLatest | internal/health/health.go:359-403 | the fields behind the attributes are the last failure since the last success and the last sample since the last start: its loss is its drops over its packets and drops, its count its dropped frames |
| HealthTopics.SinceIsCurrentIff | internal/health/health.go:306-353 | on the stream sensor's attribute topic the failure count and the error are always current; the since-time is out of date, and then too early, if and only if a tick raised the flag and no result or connect came after |
| HealthTopics.TickRaisesUnseen | internal/health/health.go:340-353 | so it is after a single failed start and a tick |
| HealthTopics.DropAttributesAreRecent | internal/health/health.go:318-338 | the drop sensor's retained attributes are those that one sample or connect left; every sample since came within 15 seconds of it without changing the flag, and only a start can have moved the since-time |
| HealthTopics.SampleWritesIff | internal/health/health.go:320-338 | a sample's attributes are published if and only if it changes the flag, is the first, or comes 15 seconds or more after the last sample that published |
| HealthTopics.StartLeavesDropAttributes | internal/health/health.go:310-314 | a start clears the fields and leaves the retained attributes as they are |
| Health.SinceIsLastChange | internal/health/health.go:359-452 | in every run each since-time is the time of the last event that changed its flag, the reporter's start if none did |
| Health.StartsAreInThePast | internal/health/health.go:402-437 | under a clock that does not run backwards no streak is measured from the future |
| Health.LossFraction | internal/health/health.go:455-461 | the exact fraction: times packets plus drops it is the drops; between 0 and 1, zero exactly without drops |
| HealthReporter.CamState.ApplyEvent | internal/health/health.go:359-383 | updates the streak in place and reports exactly whether the flag changed |
| HealthReporter.CamState.DoPromote | internal/health/health.go:387-397 | flips to problem in place, reporting the change |
| HealthReporter.CamState.DoApplyStats | internal/health/health.go:402-437 | the hysteresis in place, reporting the change |
| HealthReporter.CamState.DoResetDrop | internal/health/health.go:441-452 | clears the drop state, reporting the change |
| HealthReporter.CamState.StreamResult | internal/health/health.go:299-309 | the stream sensor's part of a result: state topic on a change, attributes always |
| HealthReporter.CamState.HandleResult | internal/health/health.go:299-314 | a start result updates both sensors and publishes exactly the states that changed and the stream attributes |
| HealthReporter.CamState.HandleStats | internal/health/health.go:320-338 | a sample updates the drop sensor, publishes its state on a change, and its attributes on a change or after 15 seconds |
| HealthReporter.CamState.HandleTick | internal/health/health.go:344-352 | a tick promotes a standing failure streak |
| HealthReporter.CamState.OnConnect | internal/health/health.go:475-482 | a connect publishes both states and both sets of attributes |
| HealthReporter.Reporter.HandleEvent | internal/health/health.go:286-338 | a result or sample takes one step of the named camera and leaves the others alone; an unknown name changes nothing |
| HealthReporter.Reporter.HandleAll | internal/health/health.go:340-354 | a tick or a connect reaches every camera once |
| HealthReporter.CamerasAreIndependent | internal/health/health.go:270-284 | in a run of the whole reporter each camera is where it would be had it seen only its own events, the ticks and the connects |
| PullPoint.ExactlyOnce | internal/onvif/pullpoint.go:35-75 | across all interleavings the batches in lock order followed by the pending events are the events pushed |
| PullPoint.NoLostWakeup | internal/onvif/pullpoint.go:40-67 | while a puller waits and events are pending, a step other than a timeout is enabled that hands them out, wakes it or lets it be woken |
| PullPoint.WakeupsAreBounded | internal/onvif/pullpoint.go:40-67 | no more wake-ups than signals, no more signals than events pushed |
| PullPoint.StaleTokenIff | internal/onvif/pullpoint.go:35-75 | a run has a token due with no event pending if and only if some pull takes events while a token is due |
| PullPoint.BrokenIff | internal/onvif/pullpoint.go:50-74 | a run leaves a token or a woken pull without events if and only if some pull takes events that another one counts on |
| PullPoint.BrokenPromiseShows | internal/onvif/pullpoint.go:60-74 | a pull that returns empty before its timeout does so in such a state, and from every such state one can within three steps |
| PullPointManager.Subscription.AppendEvent | internal/onvif/pullpoint.go:36-38 | the region under the mutex appends, as in the transition system |
| PullPointManager.Subscription.SignalPuller | internal/onvif/pullpoint.go:41-44 | the non-blocking send leaves a token |
| PullPointManager.Subscription.PushEvent | internal/onvif/pullpoint.go:35-45 | both in a row |
| PullPointManager.Subscription.TakeToken | internal/onvif/pullpoint.go:64-67 | the wait ends with the token |
| PullPointManager.Subscription.CheckEvents | internal/onvif/pullpoint.go:50-58 | first region of a pull: takes all events or none |
| PullPointManager.Subscription.DrainEvents | internal/onvif/pullpoint.go:69-74 | after the wait: takes all events, leaving the token as it is |
| PullPointManager.Manager.Create | internal/onvif/pullpoint.go:111-129 | refuses if and only if 64 unexpired subscriptions exist; otherwise enters the new one, evicting expired ones only when full; the table never exceeds 64 |
| PullPointManager.Manager.FanOut | internal/onvif/pullpoint.go:146-155 | every unexpired subscription gets the event and a token, expired ones are untouched |
| PullPointManager.Manager.CleanExpired | internal/onvif/pullpoint.go:158-167 | leaves exactly the unexpired subscriptions |
| PullPointManager.Manager.Remove | internal/onvif/pullpoint.go:139-143 | removes the entry and no other |
| PullPointManager.Subscription.Renew | internal/onvif/pullpoint.go:78-82 | from now plus the timeout on, and not before, the subscription has expired |

## Left out

- Cryptographic primitives, SRTP contexts, pairing and pair-verify: foreign code or key exchange; decrypted packets are inputs.
- libfdk-aac, libavcodec and gortsplib: foreign calls; ASC auto-detection only drives them.
- mDNS discovery, pairing storage, configuration, command wiring, SOAP and HTTP handling: little state of their own.
- IP text parsing: the address stays text in SetupEndpoints.
- EncodeSelectedStreamConfig and the other TLV8 builders: more compositions of the same codec.
- Audio path of the read loop and AU headers; RTCP keepalives; highestVideoSeq, which carries no cycle count.
- extractSPSPPS: merging parameter sets into the SDP is a few assignments around parseSTAPA.
- Health: JSON, percentages rounded to a decimal, discovery and availability messages, and the bounded event queue in front of the machine; a publish counts as retained at once.
- HTTP framing of HAP messages: a message is a response or an EVENT. A request whose write fails counts as not sent.
- EncryptedConn.Conn.Write: speaks of the bytes its buffered writer accepted; on an error some of them may not have reached the network, which on the link is a loss of the tail.
- EncryptedConn.Conn.SendFrame: likewise, a length counts as sent once the buffered writer took it.
- RtspServer: WritePacketRTP appends to a log, and does nothing on a closed stream; its errors are only logged by the code. The elapsed time of a reset is any 32-bit tick count, not a float.
- PullPointManager: one clock reading per call, while the code reads the clock per entry.
- FrameAssembler: counters are unbounded where the code uses 64 bits.
- Timer and mutex fairness: the lemmas are about safety and about which steps are enabled, not about when they happen.
