# PG-Prism, modelled and proved

PG-Prism is a proxy in front of PostgreSQL. For each connection it checks that the peer
is a trusted load balancer, reads a PROXY v1 header, settles TLS, reads the startup
packet, asks Guardian (a rule engine) whether to let the client in, rewrites the
`application_name` of the startup packet so that it ends in the client's address, and
then pumps bytes both ways, refusing the small Query and Parse messages that Guardian
blocks. This project models the Rust core of the proxy and proves what it keeps, from
single functions up to every run of a whole connection.

`dafny verify dfyconfig.toml` checks everything.

## How the model is built

| module | models |
|---|---|
| `Bytes`, `Text`, `Utf8` | bytes, big-endian words, splitting; trimming and text order; UTF-8 with a concrete lossy decoder (maximal subparts, section 3.9 of the Unicode Standard) |
| `Streams`, `Wire` | sockets: a source with an end of file; a sink with a failure point that never heals; a buffered reader that takes in whole reads and forgets what it read ahead when it is taken apart |
| `Address`, `Literals`, `Trust` | address literals (section 2.2 of RFC 4291), CIDR blocks (section 3.1 of RFC 4632), the allowlist, the log throttle |
| `Tokens`, `ClockWindow`, `Guardian` | token search, clock windows, rules and query verdicts |
| `ApplicationName`, `Startup`, `Messages` | the stored-length budget, the startup packet, ErrorResponse |
| `ProxyHeader`, `Handshake`, `Segmentation`, `Gate`, `Admission` | header, negotiation, everything `handle_client` decides before it splits the stream |
| `Frames`, `Loop`, `Misreading`, `Pump` | the ideal backend stream, the client-to-server loop as a function, what a lost backend does to it, and the two forwarding tasks as imperative code |
| `Session`, `SessionBackend`, `SessionClient`, `SessionPending`, `SessionLoop`, `SessionRuns`, `SessionEnds` | the two tasks, the client writer's mutex and the asymmetric join as a state machine, one step for each await: what every run keeps, and where it ends |
| `Clients` | clients as they are meant to be, in plaintext or inside TLS, and some that are not |
| `World`, `WorldRuns`, `WorldDelivery`, `WorldEnds` | whole connections as a state machine: the gate step by step, then the session |

Code that works by changing things is imperative here too, proved equal to a specification
function: the loops over header bytes, startup packets, parameters, rules and chunks, and
the classes that hold their buffers. What the source promises is then proved of that
function. The small tests everything rests on (which messages are inspected, which bytes
continue an identifier, which are stored as they are, what a code, a block or an address
literal says) are also stated in bytes, without the names of the predicates that decide
them. A connection is finite: every stream is some finite number of bytes followed by an
end of file, which also stands for a read error.

## What was found

The proofs follow the code where it differs from what one might expect.

- An `application_name` that the proxy adds is the address behind one space, not the
  bare address (`ApplicationName.AddedNameHasLeadingSpace`).
- A denial repeats the address field of the header even when it is no address. With a
  NUL in it, and only then, the ErrorResponse cannot be read back
  (`Gate.DenialIsReadableIffNulFree`), and any trusted peer can bring that about
  (`Clients.UnreadableDenialsHappen`).
- A reader that is taken apart loses what it read ahead: behind a declined request
  (`Handshake.ReadAheadIsLost`), behind a plaintext startup packet
  (`Segmentation.ReadAheadOfTheSessionIsLost`), and behind the one inside TLS
  (`Segmentation.TlsSessionIsWholeIff`). The bytes sent decide the negotiation, in whatever
  reads they arrive, for exactly the streams with nothing behind the packet that could
  make a difference (`Segmentation.NegotiationIsRightIff`); for a client that waits for
  each answer they always do (`Handshake.LockStepOutcome`).
- When the write of a chunk fails with payload still to go and input behind the chunk,
  the loop goes on in the middle of that frame. It keeps its place in exactly the other
  cases (`Loop.KeepsItsPlaceIff`), and then refuses only frames to refuse, in order
  (`Loop.KeptPlaceAnswersFrames`); once it has lost it, some continuation is answered too
  many refusals (`Misreading.LostPlaceCanMisread`), so that only a backend that never
  fails, or fails before a whole header is out, or a context that refuses nothing is safe
  on every stream (`Misreading.NeverMisreadsIff`). What the backend itself gets stays a
  prefix of the ideal stream all the same (`Loop.RunSendsTheIdealStream`).
- A block-list entry with a NUL in it breaks the rule that a payload is judged segment
  by segment; the law holds for exactly the others (`Tokens.SegmentsIffNulFree`).
- With an interval of zero the throttle's `last` can move back
  (`Trust.LastMovesForwardIffIntervalIsPositive`), and the suppressed count wraps at
  2^64 (`Trust.CallsAreConserved` counts the wraps).
- The window complementary to the whole day is not empty but the whole day again
  (`ClockWindow.WindowComplement`).

## Model

| member | source | states |
|---|---|---|
| WorldRuns.GateHoldsInEveryRun | core/rust/src/proxy.rs:153-319 | over every run of a connection, with timeouts and failures at any step: a byte reaches a backend only if the peer is trusted and its header was accepted, and then what reaches it is a prefix of one CancelRequest the client sent, or of one rewritten startup message of major version 3 that Guardian let in followed by the frames not refused |
| WorldRuns.BackIsAllowed | core/rust/src/proxy.rs:139-463 | in every reachable state the backend's bytes are a prefix of what the gate allows this connection |
| WorldRuns.PumpingIsASession | core/rust/src/proxy.rs:321-460 | while bytes are pumped the connection is in a state some run of the session reaches, with the context, the startup message and the client stream the gate let through |
| WorldRuns.RepliesAreInOrder | core/rust/src/proxy.rs:485-544 | in every reachable state the plaintext replies are N repeated with an S only last, one for at least eight bytes received; an untrusted peer hears nothing |
| WorldRuns.CompleteSessionsDeliverEverything | core/rust/src/proxy.rs:315-415 | a session whose client task is done without a failed backend write has delivered all that was allowed |
| WorldRuns.WellBehavedConnection | core/rust/src/proxy.rs:139-415 | end to end for every run of a lock-step plaintext client whose startup packet Guardian lets in: a session whose client task is done without a failed backend write has sent the backend exactly the rewritten packet and the frames not refused, and the client one N for each request; a run at which nothing goes wrong and which cannot go on so is over with exactly that |
| WorldRuns.WellBehavedTlsConnection | core/rust/src/proxy.rs:139-415 | the same end-to-end result over every run for a client that asks for TLS behind its declined requests and sends startup packet and frames there: the same stream to the backend, and one S behind the Ns |
| WorldRuns.ClientsThatWaitAreServed | core/rust/src/proxy.rs:139-415 | the same result over every run, without any condition on timing, for a client whose header and packets each arrive in a read of their own |
| Clients.SeparateReadsAreLockStep | core/rust/src/proxy.rs:485-544 | a client whose startup packets arrive one to a read never has anything read ahead of an answer |
| Clients.ClientIsJudged | core/rust/src/proxy.rs:139-319 | a lock-step plaintext client is judged by the packet behind its declined requests and the source field of its header: refused with that reason, or admitted with Guardian's context and the stream that follows |
| Clients.TlsClientIsJudged | core/rust/src/proxy.rs:493-517 | a client that asks for TLS is judged by its first packet there and the source field of its header, is answered S behind its Ns, and its session is what follows that packet inside TLS |
| Clients.NulAddressesAreDenied | core/rust/src/guardian.rs:178-188 | a source field with a NUL is no address, so a supported startup packet is denied under any rules |
| Clients.NulAddressesAreDeniedUnreadably | core/rust/src/proxy.rs:272-291 | every such client of a trusted peer is sent a denial that does not read back |
| Clients.UnreadableDenialsHappen | core/rust/src/proxy.rs:272-291 | for every policy, trusted peer and supported packet there is an arrival, with the one-character source NUL, that ends so |
| WorldDelivery.HealthCanAlwaysGoOn | core/rust/src/proxy.rs:139-463 | a connection to which nothing has gone wrong and which is not over has a step at which no write fails, no deadline strikes and no timeout expires |
| WorldDelivery.HealthyConnectionsDeliver | core/rust/src/proxy.rs:139-463 | a run of such steps that cannot be continued by another is over, the backend has all that the gate allows to the last byte, and the client every reply |
| WorldEnds.HealthyConnectionsCanDeliver | core/rust/src/proxy.rs:139-463 | from wherever such a run stands it can be continued to that end |
| WorldEnds.RunsAreBounded | core/rust/src/proxy.rs:139-463 | no run of a connection is infinite: its steps are bounded by the bytes it will carry, whatever the schedule, the timeouts and the failures |
| WorldEnds.SomethingCanAlwaysHappen | core/rust/src/proxy.rs:139-463 | no deadlock: a connection that satisfies the invariant and is not over has a next step, and while nothing has gone wrong one at which nothing does |
| WorldEnds.MaximalRunsEnd | core/rust/src/proxy.rs:139-463 | a run of steps of any kind, failures and timeouts included, that cannot be continued is over |
| World.RunKeepsInv | core/rust/src/proxy.rs:139-463 | every run of the connection machine keeps the invariant that ties each phase to the gate's decision and to the bytes already sent |
| Admission.OnlyGenuineEntries | core/rust/src/proxy.rs:153-319 | for every policy and arrival: only a trusted, introduced peer's cancellation (sent by it, unchanged, within bounds) or session (a packet it sent, major 3, address a literal, not denied) produces upstream bytes |
| Admission.RefusalsHaveTheirReason | core/rust/src/proxy.rs:153-291 | however the bytes are segmented, a connection is turned away for a packet the client sent: as unsupported if and only if its major version is not 3, as denied if and only if it is and Guardian denies it; for a client that waits for each answer the bytes decide every outcome: nothing if and only if the peer is untrusted, the header is not accepted, a reply is not taken, no packet but declined ones is there, or TLS fails or has no packet inside; else a cancellation, a refusal or a session by the first packet that is not declined, or the first inside TLS, and a session goes on right behind that packet, inside TLS if and only if nothing was read ahead of it |
| Admission.RequestsAreTurnedAway | core/rust/src/proxy.rs:236-253 | a startup payload with a negotiation or cancel code is refused as an unsupported protocol whatever the rules |
| Admission.RequestsAreNeverRewritten | core/rust/src/protocol.rs:6-38 | no packet with one of those codes reaches the rewriter, in plaintext or inside TLS |
| Admission.AddressesReachingTheRewriter | core/rust/src/guardian.rs:178-188 | every address that reaches the rewriter is a literal of at most 45 visible ASCII characters without NUL, so the branch for an overlong suffix is dead |
| Admission.ServerGetsWhatGuardianJudged | core/rust/src/proxy.rs:269-319 | for every admitted session: the packet announces its true length, the server's strict reader accepts it, the user and database it reads are those Guardian let in, and every application name it stores is uncut and ends in the client's address |
| Gate.HandleClient | core/rust/src/proxy.rs:139-319 | the connection up to the split: the backend gets exactly the bytes the gate admits, cut at its failure point; if the last reply byte is 0x53 the client gets the replies in clear and the whole notice inside TLS, cut at its room, and otherwise the notice right behind the replies and nothing inside; a session is secure in exactly the first case |
| Gate.Welcome | core/rust/src/proxy.rs:153-291 | allowlist, header, negotiation and judgement yield the entry, and send the client nothing but the negotiation replies |
| Gate.Judge | core/rust/src/proxy.rs:203-291 | the handshake's outcome becomes a relay, a refusal with its reason, or a session with Guardian's context |
| Gate.ScreenStartup | core/rust/src/proxy.rs:236-291 | the version is checked before Guardian, and Guardian is asked about the user and database of the packet |
| Gate.Act | core/rust/src/proxy.rs:203-319 | a refusal is told to the client and nothing goes upstream; a failed connection is told as unreachable; otherwise the framed bytes go upstream cut at the failure point |
| Gate.RelayCancel | core/rust/src/proxy.rs:203-223 | the cancellation is framed and sent unchanged, and the backend is shut once it all went out |
| Gate.SendFramed | core/rust/src/proxy.rs:316-318 | length then payload, as two writes, send a prefix of the framed packet, all of it exactly when the call succeeds |
| Gate.ReadGreeting | core/rust/src/proxy.rs:469-482 | the header is read first; a malformed or missing one ends the handshake without a reply |
| Gate.DenialIsReadableIffNulFree | core/rust/src/proxy.rs:274-291 | a denial notice reads back as SQLSTATE 28000 and its text if and only if the address field has no NUL |
| Gate.RefusalIsRead | core/rust/src/proxy.rs:249-309 | every refusal is an E message that reads back as S and V ERROR, C its SQLSTATE in bytes (08P01, 28000, 08006, 42501) and M its text, if and only if it is not a denial of an address with a NUL |
| SessionRuns.RunKeepsInv | core/rust/src/proxy.rs:321-460 | every interleaving of the two tasks, with any sizes of reads and writes and any failures, keeps the four invariants of the session |
| SessionLoop.StepKeepsLoopInv | core/rust/src/proxy.rs:332-415 | every step of every interleaving keeps the refusals decided and still to come at the count of the loop alone, for every point at which the backend can still have failed |
| SessionRuns.SessionsRefineTheLoop | core/rust/src/proxy.rs:332-415 | every run refines the loop: when the client task is done the backend has what the loop alone sends a backend that fails at the same byte, or never, and exactly the frames the loop refuses were refused |
| SessionRuns.SafeSessionsNeverMisread | core/rust/src/proxy.rs:332-415 | under every interleaving, a backend that never fails or fails before a whole header is out, or a context that refuses nothing, never causes more refusals than frames to refuse |
| SessionRuns.BackendGetsThePrefix | core/rust/src/proxy.rs:332-415 | in every reachable state the backend has a prefix of the startup message and the ideal stream; when the task is done and no write failed it has all of it, and exactly the frames to refuse were refused |
| SessionRuns.ClientSeesWholeRefusals | core/rust/src/proxy.rs:356-436 | in every reachable state the client's bytes are contiguous pieces; while client writes succeed every refusal but the one in hand is ErrorResponse and ReadyForQuery whole, and erasing refusals leaves the backend's bytes in order, short of at most one chunk in hand and what is unread |
| SessionRuns.RefusalsMatchFrames | core/rust/src/proxy.rs:356-366 | until the client is shut or a write to it fails, blocks begun and owed equal the frames refused; whatever has failed, those are at most the frames to refuse unless a chunk's write failed with payload to go and input behind it; and in the end, strayed or not, they are exactly those the loop alone refuses on a backend that fails at the same byte |
| SessionRuns.SessionEndsInOrder | core/rust/src/proxy.rs:409-460 | when the session ends, server-to-client is done and the client's write half is shut; the client then has every backend byte unless a write to it failed |
| SessionRuns.DrainFollowsTheServer | core/rust/src/proxy.rs:454-459 | the drain deadline is armed only after server-to-client is done |
| SessionRuns.HalfCloseHasNoDeadline | core/rust/src/proxy.rs:446-459 | once the client has stopped sending and its task is done, whichever task the join sees first, no deadline can strike, no task is cut short, and the client ends up with every byte the backend sent |
| SessionEnds.SomethingCanAlwaysHappen | core/rust/src/proxy.rs:332-460 | no deadlock: every state that satisfies the invariants and has not ended has a next one, and while nothing has been lost one by a step at which no write fails and no deadline strikes |
| SessionEnds.HealthyRunsDeliver | core/rust/src/proxy.rs:332-460 | a run of such steps that cannot be continued by another has ended with everything delivered: the backend has the whole ideal stream, the client every backend byte and only whole refusals, and exactly the frames to refuse were refused |
| SessionEnds.HealthyRunsCanDeliver | core/rust/src/proxy.rs:332-460 | from wherever such a run stands it can be continued to that end |
| SessionEnds.RunsAreBounded | core/rust/src/proxy.rs:332-460 | no livelock: on finite streams no schedule takes more steps than a bound linear in the bytes on each side |
| SessionEnds.MaximalRunsEnd | core/rust/src/proxy.rs:446-460 | a run of steps of any kind, failures included, that cannot be continued has ended |
| SessionBackend.StepKeepsBackendInv | core/rust/src/proxy.rs:332-415 | every step keeps the balance: what the backend has and what it has still to get are the ideal stream |
| SessionBackend.StepStaysWithinRefusals | core/rust/src/proxy.rs:352-407 | every step but the failed write of a chunk with payload to go and input behind it keeps the refusals, decided and to come, within the frames to refuse |
| SessionPending.StepKeepsPendingInv | core/rust/src/proxy.rs:356-436 | every step leaves each pending write with bytes to go |
| SessionClient.StepKeepsShapeInv | core/rust/src/proxy.rs:356-460 | every step keeps the lock and the join in order: who holds the mutex, who has ended when |
| SessionClient.StepKeepsBytesInv | core/rust/src/proxy.rs:356-436 | every step keeps refusals contiguous and the backend's bytes in order |
| SessionClient.StepKeepsCountInv | core/rust/src/proxy.rs:356-366 | every step keeps one block, begun or owed, for each frame refused |
| Frames.FramesPartitionTheStream | core/rust/src/proxy.rs:337-343 | framing loses nothing: the raw frames and the truncated tail are the stream |
| Frames.ForwardedIsFiltering | core/rust/src/proxy.rs:337-407 | the ideal stream is the frames not refused, raw and in order, and the whole chunks of a truncated last one |
| Frames.WholeFramesAreFiltered | core/rust/src/proxy.rs:350-405 | for whole frames it is exactly their in-order concatenation less those refused |
| Frames.OneFrameIsBlockedIff | core/rust/src/proxy.rs:350-366 | for every frame: its ideal stream is empty, and one refusal is owed, if and only if its tag is 0x51 or 0x50, its payload has at most 1023 bytes, and the context refuses the payload; any other frame is its own ideal stream and owes none |
| Frames.FrameInFront | core/rust/src/proxy.rs:350-405 | the same for a frame with anything behind it |
| Frames.ForwardedBehindFrames | core/rust/src/proxy.rs:337-407 | what follows whole frames is treated as if it stood alone |
| Frames.BlockedFrameLeavesNoTrace | core/rust/src/proxy.rs:350-366 | wherever such a frame is sent, the backend gets what it would have got without it, and the client one refusal more |
| Frames.BlockedParseLeavesNoTrace | core/rust/src/proxy.rs:345-366 | a Parse of at most 1023 bytes whose statement alone is refused leaves no trace, whatever name and types surround the statement and whatever is sent around the Parse |
| Frames.BlockedQueryLeavesNoTrace | core/rust/src/proxy.rs:345-366 | the same for a small Query |
| Frames.TruncatedFrameInNumbers | core/rust/src/proxy.rs:350-405 | of a truncated last frame nothing is sent if it is a Query or Parse that announces at most 1023 bytes, otherwise its header and whole chunks of 8192 bytes |
| Frames.MessageIsFrame | core/rust/src/proxy.rs:339-343 | a message whose length counts itself and the payload is a frame with that payload; a length below four is a frame without one |
| Frames.ForwardedGrows | core/rust/src/proxy.rs:337-407 | more input only extends what is sent and never takes a refusal back |
| Frames.BlindSentInNumbers | core/rust/src/proxy.rs:386-404 | of a truncated payload as many whole 8192-byte chunks are sent as arrived |
| Loop.RunSendsTheIdealStream | core/rust/src/proxy.rs:337-407 | for every client stream, any declared lengths and every failure point, the chunked loop sends the ideal stream cut at the failure; if all of it fits, one refusal is answered for each frame to refuse, and after a failure no more than that unless the loop loses its place |
| Loop.KeepsItsPlaceIff | core/rust/src/proxy.rs:337-407 | the loop reads every header at the start of a frame if and only if no write of a chunk fails with payload still to go and input behind the chunk |
| Loop.KeptPlaceAnswersFrames | core/rust/src/proxy.rs:350-366 | while it does, what it refuses is, in order and without a gap, a beginning of the frames to refuse, whatever write fails |
| Misreading.LostPlaceCanMisread | core/rust/src/proxy.rs:387-407 | the converse: if Guardian would refuse any frame at all, then for every run that loses its place some stream with the same bytes up to the failed chunk is answered more refusals than it has frames to refuse, however few payload bytes were to go |
| Misreading.LostBalance | core/rust/src/proxy.rs:387-407 | exactly what a lost place costs: behind the failed chunk the loop refuses what a dead backend leaves it to read there, while the frames go on some bytes later |
| Misreading.NeverMisreadsIff | core/rust/src/proxy.rs:337-407 | a context and a backend never cause too many refusals, on any stream, if and only if the backend never fails, or fails before a whole header is out, or the context refuses nothing |
| Loop.ChunksSendThePayload | core/rust/src/proxy.rs:386-404 | the chunk loop sends the payload cut at the failure point and leaves what follows it |
| Loop.TurnOnAFrame | core/rust/src/proxy.rs:337-406 | a turn that starts with a whole frame answers and skips it if it is a Query or Parse of at most 1023 bytes that the context refuses, and otherwise sends it raw, cut at the failure |
| Loop.BlockedParseIsNeverSent | core/rust/src/proxy.rs:345-366 | a small Parse whose statement alone is refused never reaches the backend: for every stream around it and every failure point the loop sends what it would have sent without it |
| Pump.ForwardChunks | core/rust/src/proxy.rs:386-404 | the loop over one reused buffer does what its functional form says to the streams on both sides |
| Pump.ForwardOne | core/rust/src/proxy.rs:337-406 | one turn of the loop: a whole frame that is a Query or Parse of at most 1023 bytes and refused gets the client one block and sends nothing; any other goes upstream raw, cut at the failure; a truncated one does what the turn function says |
| Pump.ClientToServer | core/rust/src/proxy.rs:333-415 | the task as the code runs it: ideal stream cut at the failure point, then half-close; uninterrupted blocks, one for each frame to refuse, and after a failure no more than that unless the loop loses its place |
| Pump.ServerToClient | core/rust/src/proxy.rs:417-436 | the task alone copies every byte in order up to the client's failure point and then shuts its write half |
| Pump.SendRefusal | core/rust/src/proxy.rs:356-366 | the error and, only if it went out whole, ReadyForQuery: together one block cut at the failure point |
| Pump.ReadyIsIdle | core/rust/src/proxy.rs:362 | the block ends in a ReadyForQuery message with status I |
| Loop.LostBackendCanMisframe | core/rust/src/proxy.rs:387-404 | a concrete family: for every context that refuses some frame, a stream of one unrefused frame which, on a backend that fails inside it, gets the client a refusal |
| Handshake.PerformHandshake | core/rust/src/proxy.rs:469-553 | the loop over packets has the outcome and the replies of its recursive form, for any segmentation and any reply that fails |
| Handshake.ReadPacket | core/rust/src/proxy.rs:486-489 | two reads give the first length-prefixed packet and leave the reader right behind it, or report a bad length or a short stream |
| Handshake.Turn | core/rust/src/proxy.rs:485-544 | one turn replies at most one byte, and goes round again only behind a declined request |
| Handshake.CheckedStartupLen | core/rust/src/proxy.rs:558-574 | a length is accepted if and only if it is between 8 and 10000, and then the payload is four bytes shorter |
| Handshake.NegotiationByBytes | core/rust/src/proxy.rs:496-544 | by the first four bytes of the next packet: 04 D2 16 2E is a cancellation without a reply; 04 D2 16 2F is answered 0x53, or 0x4E where TLS is off; 04 D2 16 30 is always answered 0x4E; a 0x4E sends the client round again; anything else is a session |
| Handshake.EveryNegotiationRepliesInOrder | core/rust/src/proxy.rs:485-544 | on every input the negotiation ends; its replies are N repeated with S only last and only with TLS on offer; each has cost the client eight bytes; a session is encrypted exactly when the last reply is S |
| Handshake.OutcomesAreAdmissible | core/rust/src/proxy.rs:492-543 | a payload is always between 4 and 9996 bytes, a plaintext session never carries a request code, a cancellation always carries its own |
| Handshake.OutcomeComesFromTheClient | core/rust/src/proxy.rs:485-553 | a cancellation or a session is a packet the client sent, unchanged, length and all, and the bytes to forward are a suffix of what it sent behind it |
| Handshake.LockStepOutcome | core/rust/src/proxy.rs:485-544 | for a client that waits for each answer, and however many replies it takes: every declined packet is answered N up to the one that cannot be, and the outcome is that of the first packet that is not declined, whose session's stream starts right behind it; with no such packet a length out of bounds is a protocol error and a short stream is not |
| Handshake.ReadAheadIsLost | core/rust/src/proxy.rs:518-540 | whatever arrived in the same read as a declined request is never seen, whatever it is |
| Segmentation.RightInAnyReadsIff | core/rust/src/proxy.rs:485-544 | for every byte stream and every reader that takes up to a given number of bytes a read: the negotiation has the outcome the bytes call for, in whatever reads they arrive, if and only if the bytes start with no packet, a cancellation or a request TLS answers, or with a startup packet and nothing behind it, or with a declined request and behind it what fails in the same way wherever within one read it is taken up |
| Segmentation.NegotiationIsRightIff | core/rust/src/proxy.rs:473-544 | the same for the 8192 bytes of the reader the code uses |
| Segmentation.RightInReadsOfAnySizeIff | core/rust/src/proxy.rs:485-544 | the same for reads of any size, where behind a declined request every suffix must be too short to be a packet or a bad length |
| Segmentation.AfterFirstLosesLess | core/rust/src/proxy.rs:518-541 | behind a packet the loop goes on with a suffix that is short of less than one read |
| Segmentation.SinglesAreLockStep | core/rust/src/proxy.rs:485-544 | a client whose bytes come one by one never has anything read ahead, so every byte stream has reads under which its outcome is right |
| Segmentation.ReadAheadOfTheSessionIsLost | core/rust/src/proxy.rs:541 | whatever arrived in the same read as a plaintext startup packet is lost to the session, which goes on with what arrives later |
| Segmentation.TlsSessionIsWholeIff | core/rust/src/proxy.rs:505-516 | inside TLS the session goes on right behind its startup packet if and only if nothing was read ahead of it |
| Segmentation.TlsSessionIsWholeInAnyReadsIff | core/rust/src/proxy.rs:505-516 | and, in whatever reads the bytes arrive, if and only if nothing is behind the packet |
| ProxyHeader.ReadProxyHeader | core/rust/src/proxy.rs:582-622 | the byte-by-byte loop has the result of its functional form and leaves the reader right behind what it consumed |
| ProxyHeader.HeaderExtent | core/rust/src/proxy.rs:587-600 | at most 108 bytes are consumed and none past the first line feed |
| ProxyHeader.PrintedHeaderIsRead | core/rust/src/proxy.rs:602-621 | reading undoes printing: every printed v1 header within the limit gives back its source field and is consumed exactly |
| ProxyHeader.AddressIff | core/rust/src/proxy.rs:602-621 | a line is accepted, with an address, if and only if its first five bytes are PROXY and that address is the third space-separated field of its trimmed text and not empty; every other line is malformed |
| ProxyHeader.HeaderByBytes | core/rust/src/proxy.rs:587-607 | the line is what ends in the first line feed, if that is among the first 108 bytes; otherwise 108 bytes are malformed and fewer are a lost stream |
| ProxyHeader.Version2IsRefused | core/rust/src/proxy.rs:602-607 | a stream with the v2 signature is refused after two bytes whatever follows |
| Startup.InjectIpStartup | core/rust/src/protocol.rs:128-187 | the loop over the parts prints exactly the rewritten pairs behind the version |
| Startup.RewriteIsReadBack | core/rust/src/protocol.rs:128-187 | however malformed the payload: the version is kept, the result is a well-formed pair list with one terminator, and both the lenient parser and the server's strict one read back exactly the rewritten pairs |
| Startup.ParseOfPrint | core/rust/src/protocol.rs:140-151 | parsing undoes printing for every list of NUL-free pairs with keys |
| Startup.TerminatorIsOptional | core/rust/src/protocol.rs:140-145 | a payload without its last terminator has the same pairs |
| Startup.ServerReadsPrinted | core/rust/src/protocol.rs:160-186 | the server's strict reader accepts every printed list and reads it back |
| Startup.KeptPairsCorrespond | core/rust/src/protocol.rs:145-174 | one pair out for each pair in with a key, in order, and only the values of application names change |
| Startup.RewrittenShape | core/rust/src/protocol.rs:165-184 | an application name is always present afterwards, and exactly one pair is appended if none was there, none otherwise |
| Startup.EveryStoredNameEndsInTheAddress | core/rust/src/protocol.rs:165-184 | for an address that parses, every application name in the result is stored uncut and ends in a space and the address |
| Startup.InjectedLength | core/rust/src/protocol.rs:128-187 | the packet grows by at most 63 bytes for each application name in it and 83 more, and each had already taken 18 |
| Startup.RewrittenLengthNeverWraps | core/rust/src/proxy.rs:315-318 | for every admitted length the 32-bit length prefix is the true size |
| Startup.ExtractUserDb | core/rust/src/protocol.rs:189-226 | the loop finds the last user and the last database, and the user again where the database is empty or absent |
| Startup.GuardianJudgesWhatTheServerReads | core/rust/src/protocol.rs:189-226 | extraction gives the same answer before and after rewriting, and it is, as text, the server's own: last duplicate wins, database defaults to user |
| Startup.KeysAreBytes | core/rust/src/protocol.rs:149-165 | a key decodes to one of the compared texts if and only if it is its bytes |
| Startup.RequestCodesAreUnsupported | core/rust/src/protocol.rs:7-38 | the three request codes have major version 1234, which is not supported |
| Startup.CodesInBytes | core/rust/src/protocol.rs:7-38 | the three request codes are exactly 04 D2 16 2F, 04 D2 16 30 and 04 D2 16 2E; a supported startup is exactly one that begins with 00 03 |
| ApplicationName.TruncateToStoredBudget | core/rust/src/protocol.rs:97-109 | the scan keeps the longest prefix of whole characters whose stored length fits the budget |
| ApplicationName.AddressSurvivesStorage | core/rust/src/protocol.rs:111-126 | for every name and every address literal the server's escaping and cutting leave the value uncut, ending in the whole suffix, behind the longest prefix that fits; what is stored is at most 63 bytes, all in 0x20..0x7E |
| ApplicationName.FormatByteBound | core/rust/src/protocol.rs:111-126 | whatever the address, the value is at most 63 bytes; a suffix of 63 bytes or more is itself cut, to its longest prefix that is stored in 63 |
| ApplicationName.FormatIsNulFree | core/rust/src/protocol.rs:111-126 | no NUL comes from anywhere but the name or the address |
| ApplicationName.ShortNamesAreKept | core/rust/src/protocol.rs:123-125 | a name that fits is kept whole |
| ApplicationName.AddedNameHasLeadingSpace | core/rust/src/protocol.rs:176-184 | the value of an added parameter is one space and the address |
| ApplicationName.EscapeLength | core/rust/src/protocol.rs:83-93 | the stored length is the length of what the server stores |
| ApplicationName.ByteIsStoredAs | core/rust/src/protocol.rs:83-93 | a byte in 0x20..0x7E costs one and is stored as itself; any other costs four and is stored as a backslash, an x and the two digits that spell it |
| ApplicationName.EscapeIsPrintable | core/rust/src/protocol.rs:83-93 | every byte the server stores lies in 0x20..0x7E |
| ApplicationName.EscapeKeepsIff | core/rust/src/protocol.rs:83-93 | the server stores bytes as they are if and only if all of them lie in 0x20..0x7E |
| Messages.MakeErrorResponse | core/rust/src/protocol.rs:48-69 | the two buffers hold tag, length, and severity twice, SQLSTATE and message in order |
| Messages.ErrorResponseIsReadable | core/rust/src/protocol.rs:48-69 | a client reads back exactly those fields if and only if neither text has a NUL; the length prefix is the true size |
| Utf8.DecodesToAsciiIff | core/rust/src/protocol.rs:149-165 | under lossy decoding, bytes decode to an ASCII text if and only if they are its bytes |
| Utf8.RoundTrip | core/rust/src/protocol.rs:149-168 | decoding undoes encoding |
| Utf8.DecodeFirstIsMaximal | core/rust/src/protocol.rs:149-168 | every step of the lossy decoder reads the character whose encoding comes next, or, where none does, replaces one byte or the longest run that begins a character |
| Guardian.CheckConnection | core/rust/src/guardian.rs:178-269 | an address that does not parse is denied; otherwise the first rule that passes all four tests decides, and under the returned context a query is refused if and only if that rule denies, or inspects and an entry of either of its block lists occurs in it; without a matching rule the connection is inspected against empty lists |
| Guardian.QueriesUnderTheDecision | core/rust/src/guardian.rs:178-306 | for every query: under the first rule that matches it is refused if and only if the rule denies, or inspects and an entry of its block_queries or block_tables occurs in the query; an address that does not parse is refused everything, and without a matching rule nothing is refused |
| Guardian.NonMatchingRulesAreInert | core/rust/src/guardian.rs:193-260 | deleting a rule that does not match never changes the decision |
| Guardian.RulesAfterAMatchAreInert | core/rust/src/guardian.rs:254-260 | whatever follows the first match never changes the decision |
| Guardian.OneFamilyRulesMissTheOther | core/rust/src/guardian.rs:194-211 | a rule that lists blocks of one family never matches an address of the other |
| Guardian.CheckQuery | core/rust/src/guardian.rs:271-306 | a query passes if and only if the context allows it, or inspects it and no needle of either list occurs |
| Guardian.VerdictBySegments | core/rust/src/guardian.rs:271-306 | for NUL-free needles a payload passes if and only if each of its NUL-separated segments passes |
| Guardian.TrailingNulIsInert | core/rust/src/guardian.rs:271-306 | a Query's trailing NUL never changes its verdict |
| Guardian.ParseIsRefusedWithItsStatement | core/rust/src/guardian.rs:271-306 | a Parse is refused whenever its statement alone would be, whatever name and parameter types surround it |
| Guardian.VerdictIgnoresCaseAndOrder | core/rust/src/guardian.rs:271-306 | verdicts are unchanged by ASCII case on either side and by the order of the block lists |
| Guardian.ReorderingNeedles | core/rust/src/guardian.rs:284-303 | any reordering of a block list is covered by that law |
| Tokens.ContainsToken | core/rust/src/guardian.rs:330-346 | the scan finds a needle if and only if the text is cut into three with the needle, up to ASCII case, in the middle, and on either side nothing or a byte that is no digit, letter, underscore or dollar sign and is below 0x80 |
| Tokens.OccursIff | core/rust/src/guardian.rs:313-346 | a needle occurs if and only if it is not empty and the text is cut into three with the needle, up to ASCII case, in the middle and, on either side, nothing or a byte that is no digit, letter, underscore or dollar sign and is below 0x80 |
| Tokens.SearchIsTokenization | core/rust/src/guardian.rs:313-346 | for a needle of identifier bytes the search succeeds if and only if a tokenizer that cuts the text into maximal runs of them produces it |
| Tokens.SegmentsIffNulFree | core/rust/src/guardian.rs:330-346 | searching a payload is searching its NUL-separated segments, for every payload, if and only if the needle has no NUL |
| Tokens.CaseIsIgnored | core/rust/src/guardian.rs:330-346 | changing ASCII case in the text or the needle keeps every match |
| ClockWindow.WindowIsCircularInterval | core/rust/src/guardian.rs:54-80 | for every text of a range: the window is open if and only if the range is well formed and (now - start) mod 1440 <= (end - start) mod 1440 |
| ClockWindow.PrintedRangeParses | core/rust/src/guardian.rs:54-80 | every pair of clock times printed as a range is accepted and read back |
| ClockWindow.RangeIff | core/rust/src/guardian.rs:54-80 | the well-formed ranges are exactly two clock times with a dash between them and white space around each |
| Text.TrimIff | core/rust/src/guardian.rs:58 | for all texts: trimming is what is left between white space on both sides when neither end is white space, and nothing else is |
| ClockWindow.WindowSize | core/rust/src/guardian.rs:62-67 | a window holds exactly ((end - start) mod 1440) + 1 minutes of the day |
| ClockWindow.WindowComplement | core/rust/src/guardian.rs:62-67 | the window from the minute after the end to the minute before the start is the exact complement if and only if the window is not the whole day |
| Address.LiteralShape | core/rust/src/guardian.rs:178-188 | every literal that parses has 1 to 45 characters, all hexadecimal digits, dots or colons |
| Literals.V4Iff | core/rust/src/guardian.rs:179-188 | the IPv4 literals are exactly four decimal octets up to 255 without leading zeros, joined by dots, and denote the number with those octets |
| Literals.V4AddressIff | core/rust/src/guardian.rs:179-188 | and the addresses of the IPv4 family are those of exactly these literals |
| Literals.EveryFormIsRead | core/rust/src/guardian.rs:179-188 | every IPv6 address is read back from each of its printed forms: in full or with any stretch of zero groups left out, with or without its last 32 bits dotted |
| Literals.AtMostOneGap | core/rust/src/guardian.rs:179-188 | a literal has at most one gap, and no other colon stands at an end or beside another |
| Address.ContainsIff | core/rust/src/trust.rs:104-109 | a block holds an address if and only if they are of one family and the address begins with the bits of the block |
| Address.HostBlockHoldsItsAddress | core/rust/src/trust.rs:81-84 | the block of a bare address holds that address and no other |
| Trust.ParseTrusted | core/rust/src/trust.rs:68-94 | every entry becomes its block in order, or the first entry that is neither block nor address is reported, or the list is empty |
| Trust.PrintedListIsRead | core/rust/src/trust.rs:68-94 | a comma-separated list with white space around its entries, and with items that hold nothing else, is read as its entries in order |
| Trust.EntriesAcrossComma | core/rust/src/trust.rs:69-73 | for all texts, the entries of two lists with a comma between them are those of one and then of the other |
| Trust.EntryStandsFor | core/rust/src/trust.rs:80-88 | an entry that is no block but an address stands for a block that holds that address and no other; one that is neither stands for nothing |
| Trust.CheckTrusted | core/rust/src/trust.rs:104-109 | the scan answers whether some block contains the peer or its normalised form |
| Trust.MappedFormIsTrusted | core/rust/src/trust.rs:104-130 | the IPv4-mapped form of an address is trusted if and only if the address is, or an IPv6 block covers the mapped form itself |
| Trust.Ipv4BlocksTrustNoOtherIpv6 | core/rust/src/trust.rs:104-130 | a list of IPv4 blocks, however wide, trusts no IPv6 peer that is not IPv4-mapped |
| Trust.RejectionLog.ShouldLog | core/rust/src/trust.rs:154-171 | one call changes the state and reports as the step function says; it logs if and only if it is the first, the interval is zero, or at least one interval has passed since the last line |
| Trust.CallIsLoggedIff | core/rust/src/trust.rs:152-171 | in every run from a fresh log a call is logged if and only if none before it was, or it comes at least one interval after the last that was, or the interval is zero |
| Trust.CallsAreConserved | core/rust/src/trust.rs:152-171 | over every lock-ordered sequence of calls: calls are logged, reported, still held, or lost to a wrap of the 64-bit counter |
| Trust.FreshLogConservesCalls | core/rust/src/trust.rs:143-171 | from a fresh log, in fewer than 2^64 calls, nothing is lost |
| Trust.LoggedTimesAreSpaced | core/rust/src/trust.rs:152-171 | for a positive interval, whatever order timestamps arrive in, logged events are at least one interval apart and the last one never moves back |
| Trust.LinesPerWindow | core/rust/src/trust.rs:132-171 | whatever order timestamps arrive in, from one logged line to the n-th after it there are at least n intervals |
| Trust.LastMovesForwardIffIntervalIsPositive | core/rust/src/trust.rs:160-167 | a positive interval is exactly what keeps the last logged time from moving back |

## Left out

- TLS (core/rust/src/tls.rs): switching to it is a parameter that fails or yields a fresh stream; certificates and the openssl subprocess are not modelled.
- Sockets, TCP keepalive, real time and the runtime: replaced by byte streams, an arbitrary scheduler, and timeouts that may strike at any step they cover.
- A read error is an end of file at the same place; a stream that never ends is not modelled, so the bounds on runs are for finite streams.
- Flushing: a write is complete when its bytes are accepted, so a failing flush is a failing write.
- YAML and environment loading, logging text, startup warnings, `main.rs`, and the limits other than the constants 8, 10000 and 108: plumbing around the rules.
- The CIDR text parser: rules and allowlists hold blocks already parsed, and `Trust.ParseTrusted` takes the parser as a parameter.
- The standard library's address parser is the public grammar of section 2.2 of RFC 4291 with its IPv4 rules; scope identifiers are not accepted, as there.
- PostgreSQL itself: `Startup.ServerRead` and `ApplicationName.Escape` follow its documented reading of a startup packet and its escaping of `application_name`; its code is not part of this model. Most versions also cut the user and database names to 63 bytes after reading them, which is not modelled.
- After a blocked Parse the later Bind and Execute are forwarded like any frame, and ReadyForQuery always says idle; no claim is made about what the server or the client make of that.
- A refusal may land between two chunks of one backend message; client-side framing of backend messages is not claimed.
- The forwarding tasks are proved as imperative code one at a time (`Pump`); their interleaving at the mutex is proved on values (`Session`), where a write is any number of steps and the two reused buffers are the bytes in hand.
- `World` treats one turn of the negotiation and one judgement of Guardian as single steps, because nothing goes upstream in between.
- contrib/python/main.py and bench/harness.py: a superseded prototype and a measurement tool.
- Handshake.LockStepOutcome: needs a client that waits for each answer, because `BufReader::into_inner` drops read-ahead; which streams do not need it is `Segmentation.RightInAnyReadsIff`.
- Handshake.ReadAheadIsLost: is stated for reads of any size, while the code's reader buffers at most 8192 bytes a read; what can be lost is bounded by that, as `Segmentation.NegotiationIsRightIff` has it.
- Segmentation.ReadAheadOfTheSessionIsLost: is stated for reads of any size, with the same remark.
- Segmentation.RightInAnyReadsIff: is stated for a client that takes every reply, so that a reply that fails is not confused with bytes that are lost.
- Loop.RunSendsTheIdealStream: compares refusals with the frames to refuse only while the loop keeps its place, because once it has lost it the comparison is false of the code (`Misreading.LostPlaceCanMisread`).
- Pump.ClientToServer: compares them under the same condition, for the same reason.
- SessionRuns.RefusalsMatchFrames: compares them while no chunk's write failed with payload to go and input behind it, for the same reason.
- SessionEnds.HealthyRunsDeliver: is stated for an error packet that is not empty, as every one the proxy makes up is.
- Guardian.VerdictBySegments: is stated for needles without NUL, exactly those for which `Tokens.SegmentsIffNulFree` gives it.
- Trust.LoggedTimesAreSpaced: is stated for a positive interval, exactly those for which the last logged time cannot move back.
