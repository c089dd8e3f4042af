# Verified model of the studio connector

The connector is a daemon that holds one WebSocket to a broker, takes commands from it, checks them
against a typed allowlist and runs them against Perforce or TeamCity inside a studio's network. This
project models the parts where a mistake would be hard to see and proves what they promise:

- `Bytes`, `Frames`: the frame format of section 5.2 of RFC 6455 as a reference, and the two codecs
  written against it, the connector's in Go and the drill peer's in Ruby. What each reader accepts is
  proved exactly, so it is known of every frame of either whether the other reads it back.
- `Messages`, `WsClient`, `RubyPeer`: reassembly over a byte stream (sections 5.4 and 5.5 of RFC 6455), the
  connection object with its buffers and counters, the peer's buffered reads and its own message loop.
- `WriteLock`: any number of goroutines inside `writeFrame`, each of its three socket writes a step.
- `Pump`, `PumpWork`: the main goroutine, heartbeat, reader and handlers of a session as a step system;
  safety in every reachable state, a bound on the steps of a shutdown, and what becomes of every command,
  tick and failure.
- `Idle`: the read deadline and the idle check as a timed protocol.
- `Dedupe`, `Session`: the sliding window of command ids and the whole command path.
- `DepotScope`, `Config`, `Vocab`: depot patterns against scopes, the validation they rest on, and the
  allowlist.
- `Utf8`, `Describe`: truncation of a changelist to two budgets, the capped buffer, the error record, and
  the runes, white space and JSON escapes they meet.
- `Clamps`: deadlines, heartbeats, byte limits and backoff with Go's 64-bit wrap-around.

A Go string is the sequence of its bytes, instants and durations are integers in nanoseconds. What comes
from outside is an input: the bytes of a socket and where its deadlines fall, clock readings, random
numbers, the results of tools. `dafny verify dfyconfig.toml` checks everything. Automatic induction is
switched off on every lemma, so that each proof by induction is the one written down.

## What turned out otherwise

These are properties the code, its comments or PROTOCOL.md suggest and that do not hold as stated. Each
has a concrete input and the exact condition under which the property does hold.

- **The peer cannot read a frame of 127 bytes.** `read_frame` tests its length variable for 126 and then
  again for 127 (`test/support/ws.rb:185-186`), so a 16-bit length of 127 is taken for the announcement of
  a 64-bit one, and the masking key with the first four payload bytes for that length. A frame of the
  connector is read back exactly when it is acceptable and not 127 bytes long
  (`Frames.ComesBackUnless127`); an object of 127 bytes is always refused as too big
  (`Frames.ObjectOf127`, `Frames.SomeTextIsLost`).
- **A read deadline inside a message loses it.** When `ReadMessage` times out, the fragments it gathered
  and the bytes of a half-read frame are gone, yet the session treats a timeout with recent activity as
  idle and calls it again (`internal/session/session.go:278-281`). Between frames this is harmless exactly
  when the fragments were empty, or the call fails in either case before the cap is passed
  (`Messages.DeadlineBetweenFrames`). At any byte inside a frame a server sends, the next call reads that
  frame exactly when none of it was lost (`Messages.CutCall`, `Messages.DeadlineInsideFrame`); two halves
  of a text "hi" end as a protocol error (`Messages.DeadlineInsideText`).
- **A wildcard glued to a scope's root escapes it.** With the scope `//depot/game/` the pattern
  `//depot/game...` is accepted and matches `//depot/gamesecret/x` (`DepotScope.GluedExample`).
  `DepotScope.SoundUnlessGlued` proves that glued patterns are the only exception.
- **A literal prefix may hold a wildcard.** `literalPrefix` promises the part before the first wildcard
  (`internal/vocab/vocab.go:539-540`), but of `//d/a.*...` it returns `//d/a.*`
  (`DepotScope.StarIsOverlooked`). It keeps the promise exactly when no dot precedes the first star or no
  three dots follow it (`DepotScope.LiteralPrefixExactly`); scopes are sound all the same.
- **The backoff cap of 60 s is a cap on the jitter.** The wait is below 60.5 s, and passes 60 s exactly
  for draws above 59.5 s from the eighth attempt on (`Clamps.CapIsPassed`).
- **Huge numbers wrap.** `deadline_ms` 9223372036855 becomes the 15 s default, and a heartbeat interval of
  30 + 2^55 seconds is taken for 30 (`Clamps.DeadlineIsIntended`, `Clamps.HeartbeatIsIntended`).
- **The size estimate does not always round up.** Four ampersands, or four control bytes, in a path are
  enough for the JSON of a file to pass `approxJSONBytes`, whose comment promises otherwise: it covers the
  file exactly when escaping adds at most 15 bytes (`Describe.EstimateCovers`,
  `Describe.EstimateFallsShort`).
- **Fragment order is not checked.** A message may begin with a continuation frame
  (`Messages.OrderIsNotChecked`, `Messages.StrayContinuation`).
- **A null passes as a bool or a string.** `include_diff: null` is accepted as `false`; a null string is
  the empty one (`Vocab.NullPasses`).
- **Results are not bounded by the peer's frame limit.** `WriteText` sends a result of any size, and the
  peer refuses frames over 1 MiB (`Frames.LongTextIsLost`, `Frames.RubyReadsGoFrame`,
  `WriteLock.PeerHearsUntil`).

## Model

| member | source | states |
|---|---|---|
| Bytes.BitOperations | internal/wsclient/wsclient.go:359-366 | the integer readings of FIN, MASK, opcode and length bits are the bit operations of the code |
| Bytes.GetAfterPut | internal/wsclient/wsclient.go:277-283 | big-endian coding in any width is undone by decoding, for every number that fits |
| Bytes.PutAfterGet | internal/wsclient/wsclient.go:370-382 | decoding bytes and coding them again gives the bytes back |
| Bytes.MaskTwice | internal/wsclient/wsclient.go:410-414 | masking twice with one key is the identity, for every payload and key |
| Bytes.XorIsBitwise | internal/wsclient/wsclient.go:293 | the integer `Xor` of two bytes is their bitwise exclusive or |
| Bytes.MaskIsBitwise | internal/wsclient/wsclient.go:410-414 | byte i of the masked payload is the exclusive or of byte i of the payload with byte i mod 4 of the key |
| Frames.GoReadExactly | internal/wsclient/wsclient.go:354-416 | `readFrame` returns a frame and a rest if and only if the bytes are that frame in some length form, masked or not, within the limits, followed by the rest |
| Frames.RubyReadExactly | test/support/ws.rb:177-201 | the peer's `read_frame` accepts exactly the acceptable masked frames in the forms it takes: each length form except a 16-bit length of 127, and a 64-bit length behind a 16-bit 127 |
| Frames.ReadersDiffer | test/support/ws.rb:183-196 | on every byte string whose header is not doubled the two readers give the same verdict, error or frame, except that the peer refuses an unmasked one |
| Frames.ReadAlike | test/support/ws.rb:185-186 | a frame the connector accepts is read alike by the peer if and only if it is masked and its 16-bit length is not 127 |
| Frames.DoubledIsCollapsed | test/support/ws.rb:185-186 | the peer reads a doubled header as if the 16-bit length were not there |
| Frames.WritersAreMinimal | internal/wsclient/wsclient.go:270-284 | both writers send the reference format in its shortest length form with FIN set, masked by the connector and not by the peer |
| Frames.RubyReadsGoFrame | test/support/ws.rb:177-201 | the peer's verdict on every frame the connector can send, with anything after it: read back whole, refused with which error, or misread at 127 bytes |
| Frames.ComesBackUnless127 | test/support/ws.rb:185-186 | a frame of the connector comes back if and only if it is acceptable and not 127 bytes long |
| Frames.ObjectOf127 | test/support/ws.rb:185-190 | a JSON object of 127 bytes sent as text is refused as too big, whatever the key |
| Frames.SomeTextIsLost | test/support/ws.rb:185-190 | such a text |
| Frames.LongTextIsLost | test/support/ws.rb:190 | a text one byte over the peer's limit is refused |
| Frames.GoReadsBothWriters | test/support/ws.rb:161-175 | the connector's reader inverts both writers and leaves what follows unread |
| Frames.GoReadLocal | internal/wsclient/wsclient.go:354-416 | a verdict once reached is not changed by more bytes |
| Frames.RubyReadLocal | test/support/ws.rb:177-201 | nor is the peer's |
| Messages.Reassembly | internal/wsclient/wsclient.go:317-352 | for every fragmentation, coding and interleaving of pings and pongs, one call returns the joined payloads, answers each ping once in order and leaves the rest; it is too big exactly past the cap |
| Messages.EveryOpcode | internal/wsclient/wsclient.go:327-347 | what one frame does to a call, by the number of its opcode: a ping is answered with 0xA and its payload, a close echoed with 0x8 and ends the call, a pong is ignored, text and continuations are gathered within the cap, the rest is an error |
| Messages.MessagesAreFrames | internal/wsclient/wsclient.go:317-352 | conversely, every message returned was such a run of frames at the head of the stream, and explains all replies and all bytes consumed |
| Messages.HoldsWithinCap | internal/wsclient/wsclient.go:340-347 | whatever frames come, the connector never holds or returns more of a message than the cap |
| Messages.RepliesAcceptable | internal/wsclient/wsclient.go:329-337 | every pong or close echoed is itself within the limits a peer enforces |
| Messages.CutCall | internal/wsclient/wsclient.go:320-327 | a call that meets its deadline at any byte of a frame has answered the pings before it, consumed everything and returned nothing |
| Messages.DeadlineBetweenFrames | internal/session/session.go:277-281 | what an undisturbed call gives is what the resumed call gives with the fragments put back; the two agree if and only if the fragments were empty or the call fails in either case before the cap |
| Messages.Preloaded | internal/wsclient/wsclient.go:318-347 | a call that holds bytes already ends as a fresh call would, with those bytes in front, or passes the cap |
| Messages.DeadlineInsideFrame | internal/session/session.go:277-281 | for every frame a server sends and every byte of it, what is left of it is read as that frame if and only if nothing was lost |
| Messages.DeadlineInsideText | internal/session/session.go:277-281 | a deadline inside a two-byte text frame ends the session with a protocol error |
| Messages.OrderIsNotChecked | internal/wsclient/wsclient.go:340-347 | the loop agrees with one that checks fragment order if and only if the frames it reads are in order |
| Messages.StrayContinuation | internal/wsclient/wsclient.go:340-347 | a continuation frame that continues nothing is returned as a message |
| WsClient.SentInFull | internal/wsclient/wsclient.go:266-311 | frames that fit are on the socket whole, one after another, each with the next key |
| WsClient.ClosePayload | internal/wsclient/wsclient.go:256-264 | a close payload is as much of the code and the reason as a control frame carries |
| WsClient.GoingAwayReads | internal/wsclient/wsclient.go:419-428 | the reason of the close frame that `Close` sends, letter by letter |
| WsClient.BuildHeader | internal/wsclient/wsclient.go:270-284 | the header bytes for every opcode and length |
| WsClient.MaskPayload | internal/wsclient/wsclient.go:291-294 | the masking loop fills exactly the masked payload |
| WsClient.Unmask | internal/wsclient/wsclient.go:410-414 | the in-place unmasking loop |
| WsClient.Conn.WriteFrame | internal/wsclient/wsclient.go:266-311 | the bytes on the socket are the frame, or its beginning when the socket fails, and success is reported exactly when all of it fits |
| WsClient.Conn.WriteClose | internal/wsclient/wsclient.go:256-264 | sends the truncated close payload as one frame |
| WsClient.Conn.Close | internal/wsclient/wsclient.go:419-428 | the first call sends the close frame and shuts the socket, any later call changes nothing |
| WsClient.Conn.ReadFrame | internal/wsclient/wsclient.go:354-416 | returns what the specification says of the bytes before the next deadline and consumes exactly the frame; on a deadline it loses what it read |
| WsClient.Conn.ReadMessage | internal/wsclient/wsclient.go:317-352 | result, replies sent, bytes left and the time of the last frame are those of the specification, deadlines included |
| RubyPeer.Peer.ReadExact | test/support/ws.rb:203-227 | a success is the next n bytes for every way the socket cuts the stream; the buffer plus the unread bytes is always the unconsumed stream, also after an exception |
| RubyPeer.Peer.ReadSlices | test/support/ws.rb:203-227 | calls in a row return the same consecutive slices however the stream is cut |
| RubyPeer.Peer.ReadLength | test/support/ws.rb:184-186 | the two tests for an extended length, one after the other, consume what the specification says |
| RubyPeer.Peer.ReadFrame | test/support/ws.rb:177-201 | the buffered reader gives the verdict on the stream and leaves the rest, however it is cut |
| RubyPeer.Peer.WriteFrame | test/support/ws.rb:161-175 | appends exactly one unmasked frame |
| RubyPeer.Peer.ReadMessage | test/support/ws.rb:128-147 | returns, replies and leaves unread what its specification says, unless a deadline comes first |
| RubyPeer.ReassemblersAgree | test/support/ws.rb:128-147 | on every byte string that holds no 16-bit length of 127 the two message loops agree on outcome, replies and rest, errors included, apart from masking, the echo of a close frame and a connector that cannot reply |
| RubyPeer.PeerGetsText | test/support/ws.rb:128-147 | a text the connector sends is the message the peer returns if and only if it is within the cap and not 127 bytes long |
| WriteLock.Atomicity | internal/wsclient/wsclient.go:266-311 | in every state of every run of concurrent writers, one at most is writing, and the socket holds whole frames in lock order and then a proper beginning of the next, which until an error is what the present holder wrote |
| WriteLock.LockIsFreed | internal/wsclient/wsclient.go:266-311 | from every reachable state the holder can release the lock, its frame whole on an intact socket |
| WriteLock.FrameCanBeSent | internal/wsclient/wsclient.go:266-311 | then any goroutine can send its frame, which stands whole behind the others |
| WriteLock.NothingIsSent | internal/wsclient/wsclient.go:285-290 | a writer that cannot draw a key leaves the lock and the socket as they were |
| WriteLock.BeginningIsRead | test/support/ws.rb:177-201 | of a frame begun and not finished the peer awaits more, or refuses it once its head is there |
| WriteLock.OwnFramesAreJudged | internal/session/session.go:456-462 | the frames the connector sends are read back or refused, never taken for others |
| WriteLock.PeerHears | test/support/ws.rb:177-201 | while the whole frames are ones it reads back, the peer decodes exactly those, in lock order, and then waits or refuses the frame that was begun |
| WriteLock.PeerHearsUntil | test/support/ws.rb:185-193 | when a frame it refuses was sent whole, the peer hears exactly those before it and ends with that error |
| Pump.Invariant | internal/session/session.go:217-328 | every reachable state keeps the counts, the depths, the error channel and the shutdown flags consistent |
| Pump.PumpReturnsLast | internal/session/session.go:217-328 | the WaitGroup counts the live goroutines, `Add` in the reader runs at a count of at least one, `pump` returns after all have ended, with the first error reported, or nil only when the parent was cancelled |
| Pump.ConcurrencyBound | internal/session/session.go:243-249 | semaphore occupancy is the unreleased handlers plus the reader's slot; at most max_concurrent are inside `handle` and no queue depth reported is greater |
| Pump.NoHalfDeadSession | internal/session/session.go:227-234 | once the heartbeat or the reader has ended, main can leave its select or is shutting down |
| Pump.StepsFall | internal/session/session.go:317-327 | with the socket closed a measure falls on every step of any goroutine |
| Pump.ShutdownIsBounded | internal/session/session.go:317-327 | so every run from there has at most that many steps |
| Pump.NoDeadlock | internal/session/session.go:227-234 | until `pump` has returned, some goroutine can step: `fail` never blocks and nobody waits for another that waits |
| Pump.ShutdownEnds | internal/session/session.go:317-327 | a run that cannot be extended after the socket was closed has returned, within the bound |
| PumpWork.CommandsAreHandled | internal/session/session.go:286-314 | in every state of every run, the commands read are the handlers started, the one in the reader's hand and those dropped because the session was over |
| PumpWork.HandlerStory | internal/session/session.go:305-313 | a handler passes `handle` by one return and its write by one write of its own, and its result is on the socket once exactly when that write succeeded |
| PumpWork.TicksAreSent | internal/session/session.go:236-258 | every tick sends a heartbeat with the depth measured at it and then a ping, in order, until a write fails or the session ends |
| PumpWork.FailuresAreReported | internal/session/session.go:219-313 | every failed read or write, of each error value, is given to `fail` exactly once |
| PumpWork.PumpStarts | internal/session/session.go:236-262 | four steps of main start the heartbeat and the reader and count both |
| PumpWork.CommandCanBeAnswered | internal/session/session.go:286-313 | from every reachable state with an open socket and a reader in its loop there is a run on which its command is answered, also when every slot is taken |
| PumpWork.TickCanBeSent | internal/session/session.go:243-258 | a heartbeat in its loop can tick and send both frames |
| PumpWork.PumpCanReturn | internal/session/session.go:217-327 | from every reachable state there is a run on which `pump` returns |
| Idle.TimeoutEndsIff | internal/session/session.go:277-284 | a timeout ends the session if and only if no frame of any kind was read in the two heartbeats before it, over every schedule |
| Idle.SilenceIsBounded | internal/session/session.go:263-284 | a session is given up no earlier than two heartbeats after its last frame, and strictly before four, plus lateness, unless the reader was away longer |
| Idle.SilenceIsNoticed | internal/session/session.go:263-284 | with time passing as an event: once that time is up, the session has been given up in every run |
| Idle.SilentSocketDies | internal/session/session.go:263-284 | and from every state a silent session can go on, to its death |
| Idle.TimeGoesOn | internal/session/session.go:263-284 | without another frame there is a run to every later instant, so the bound is never met by time standing still |
| Idle.AnsweredIsKept | internal/session/session.go:250-276 | a session whose pings are each answered within a heartbeat is never given up |
| Idle.EveryDelayHappens | internal/session/session.go:277-284 | the bounds are exact: every delay from two up to four heartbeats occurs |
| Idle.LateDelayHappens | internal/session/session.go:277-304 | and so does two heartbeats plus any time the reader was away and any lateness of the timeout |
| Dedupe.PruningIsInvisible | internal/session/session.go:426-442 | with clocks in lock order every history gets the answers of a map that is never pruned |
| Dedupe.GrantsAreApart | internal/session/session.go:426-442 | with no assumption on clocks, between two grants of an id some claim, the second included, read a clock more than the window past the first |
| Dedupe.OrderedGrantsAreApart | internal/session/session.go:437-440 | with ordered clocks two grants of an id are more than ten minutes apart |
| Dedupe.DeniedIsReplay | internal/session/session.go:437-439 | no claim is denied unless its id was granted within the window before it |
| Dedupe.SeenIsBounded | internal/session/session.go:430-436 | the map outgrows its limit only by ids granted within the window |
| Session.Runner.Claim | internal/session/session.go:426-442 | the map after a claim and its answer, pruning loop included, for every order of the walk |
| Session.Runner.HandleCommand | internal/session/session.go:332-402 | one result, one audit line whose fields are those of the result and the command, the ids seen and at most one tool call, on every path |
| Session.HandlingAgrees | internal/session/session.go:332-402 | the result bears the command's id, a reason exactly when not OK and a body exactly when OK; it is refused exactly when not admitted, with the reason of the first check that fails, and a passed deadline counts before a tool's error |
| Session.AdmittedIsAnswered | internal/session/session.go:364-421 | the whole result and audit detail of an admitted command: the body of each sys verb, the text, bytes and truncation a tool returned, the token for its error, or the passed deadline |
| Session.ExecutionAgrees | internal/session/session.go:366-421 | a tool is called exactly for an admitted command that has one, with the call as resolved and the limits as documented, in nanoseconds and bytes; a verb with neither tool nor built-in answer never succeeds |
| Session.ErrorTextStays | internal/session/session.go:364-399 | no result depends on the text of a tool's error or of a refusal, which go to the audit log |
| Session.ExecutionsAreApart | internal/session/session.go:332-442 | over every run, with ordered clocks, two tool calls for one id are more than the window apart |
| Session.ExecutionsArePassed | internal/session/session.go:332-442 | and with any clocks some claim between them read a clock more than the window past the first |
| Session.ThisBuildIsValid | internal/session/session.go:72-75 | the vocabulary of this build is one these statements apply to |
| DepotScope.WithinPrefixList | internal/vocab/vocab.go:569-579 | the loop finds whether some slash-terminated scope is the string's root or prefix |
| DepotScope.IsDepotPathExactly | internal/vocab/vocab.go:493-506 | the check by segments accepts exactly the strings with two slashes first, no @, # or % anywhere, and no slash with a segment `.` or `..` behind it |
| DepotScope.WithinIsSegmentPrefix | internal/vocab/vocab.go:560-579 | that string test holds if and only if the segments of some scope begin the segments of the path |
| DepotScope.LiteralPrefixStops | internal/vocab/vocab.go:541-558 | the prefix may hold a star but ends where three dots begin, is the whole string exactly without wildcards, and a wildcard follows it otherwise |
| DepotScope.LiteralPrefixExactly | internal/vocab/vocab.go:541-558 | it is the text before the first wildcard except when a dot precedes the first star and three dots follow it; then it goes on to the dots |
| DepotScope.DotsAreThree | internal/vocab/vocab.go:545-547 | what counts as a wildcard: three dots, and not two with a byte between |
| DepotScope.StarIsOverlooked | internal/vocab/vocab.go:539-558 | a path whose literal prefix holds a star |
| DepotScope.AcceptedIsSound | internal/vocab/vocab.go:516-524 | under normalized scopes every path matched by an accepted pattern is in scope, unless its wildcard is glued to a scope's root |
| DepotScope.GluedEscapes | internal/vocab/vocab.go:574 | a glued pattern matches a path beside every scope |
| DepotScope.SoundUnlessGlued | internal/vocab/vocab.go:493-579 | so an accepted pattern stays in scope if and only if it is not glued |
| DepotScope.StarMatches | internal/vocab/vocab.go:541-542 | in the reading of patterns these statements use, a star stays within one segment |
| DepotScope.LiteralMatches | internal/vocab/vocab.go:541-542 | and a pattern without a wildcard matches itself alone |
| DepotScope.GluedIsRoot | internal/vocab/vocab.go:574 | the accepted glued patterns are exactly those with a wildcard right behind a scope's root that no scope ends within |
| DepotScope.AcceptedExactly | internal/vocab/vocab.go:516-579 | the other accepted patterns are exactly those that begin with a scope before any wildcard, and the roots of scopes |
| DepotScope.GluedExample | internal/vocab/vocab.go:569-579 | one such pattern: a valid depot path, accepted under a normalized scope, and a path it matches outside it |
| Config.TokenSplit | internal/config/config.go:295-301 | a string is a token if and only if it splits on underscores into bsc, an id and a secret; `IntegrationID` is the middle part and rejoining gives the token |
| Config.TokenByCodes | internal/config/config.go:30 | and exactly the strings of those lengths and ASCII codes |
| Config.NormalizedScope | internal/config/config.go:255-269 | a scope that passes keeps its segments and becomes a literal, slash-terminated prefix; once normalized it stays as it is |
| Config.SlashedIsNormalized | internal/config/config.go:255-269 | when no entry is refused all are normalized and a second validation changes nothing |
| Config.Config.Validate | internal/config/config.go:206-281 | the first error in the order of the checks and the scopes left behind, also when an entry in the middle is refused; a success means a verified endpoint, a token, normalized scopes |
| Config.Config.NormalizeScopes | internal/config/config.go:255-269 | the in-place loop: entries before the first refused one are normalized, the others untouched |
| Config.LoopStopsAtFirst | internal/config/config.go:255-269 | the entries before the first bad one get their slash, it and those behind it stay, and its fault is the error |
| Config.Config.RefusalIsFirst | internal/config/config.go:206-281 | the error is the first in the order of the checks whose condition holds, each stated by itself, and None exactly when none does |
| Vocab.ValidateArgs | internal/vocab/vocab.go:383-423 | for every order in which Go walks a map the answer is the one of the specification |
| Vocab.ValidateMeets | internal/vocab/vocab.go:425-487 | a value is accepted as x if and only if the schema permits that JSON for x, nulls included |
| Vocab.ValidateRefuses | internal/vocab/vocab.go:425-532 | the reason each refused value is given, with the exact condition of each |
| Vocab.PatternsByCodes | internal/vocab/vocab.go:192-308 | the four argument patterns by length and ASCII code, a repository name as two names around one slash |
| Vocab.NullPasses | internal/vocab/vocab.go:434-466 | what a JSON null is taken for as an integer, a bool and a string |
| Vocab.ResolveExactly | internal/vocab/vocab.go:358-423 | a command resolves if and only if its verb is compiled, not content, has its tool enabled, and the arguments conform to the schema |
| Vocab.ResolveRefuses | internal/vocab/vocab.go:358-423 | the reason a command is refused with: the first layer that refuses it, and of its arguments the first bad one in schema order |
| Vocab.PathResolvesIff | internal/vocab/vocab.go:493-532 | p4.changes resolves for a path if and only if Perforce is enabled and the path has at most 1024 bytes, no control byte, the form of a depot path and a scope that accepts it |
| Vocab.TraversalIsRefused | internal/vocab/vocab.go:501-503 | a path that leaves its scope by a traversal segment is refused under every scope |
| Vocab.LayersAreBlind | internal/vocab/vocab.go:353-357 | each layer's refusal is independent of everything the later layers look at |
| Vocab.Selfcheck | internal/vocab/vocab.go:599-628 | succeeds exactly on tables without a compiled mutating or content verb, a banned name or an unbounded argument |
| Vocab.BannedInAnyCase | internal/vocab/vocab.go:609-611 | a name is banned however it is capitalised |
| Vocab.VocabularyIsSound | internal/vocab/vocab.go:199-333 | the table passes, has no duplicate, and its compiled verbs take only positive numbers, pinned switches and scoped paths |
| Vocab.RunnableVerbs | internal/vocab/vocab.go:199-333 | the compiled verbs by name, with the tool each needs |
| Vocab.AcceptedCommands | internal/vocab/vocab.go:358-487 | whatever a broker sends, an accepted command neither mutates nor returns content, carries no banned argument, leaves the diff off, and its paths reach only what is in scope unless glued |
| Describe.AtoiItoa | internal/tools/perforce.go:141 | decimal printing of indices is injective |
| Describe.PresentIsBounded | internal/tools/perforce.go:140-144 | the unbounded scan ends: no more indices are present than the record has entries |
| Describe.FilesAreFields | internal/tools/perforce.go:140-156 | which indexed key of the record stands in which field of which file |
| Describe.StrMeans | internal/tools/perforce.go:319-327 | a text field is taken as it is, any other as it prints, a missing one as empty |
| Describe.DescribeFromRecord | internal/tools/perforce.go:112-170 | exactly the longest prefix within the file cap and the byte budget, the real count as the first missing index, truncated exactly when a file is missing |
| Utf8.EscapedLength | internal/tools/perforce.go:172-177 | how much Go's JSON escaping adds to any string of bytes |
| Utf8.EscapedComesBack | internal/tools/perforce.go:172-177 | what a JSON reader makes of any escaped string is the string with U+FFFD for each byte that belongs to no rune |
| Utf8.ComesBackIfValid | internal/tools/perforce.go:172-177 | so it comes back as it was if and only if it is valid UTF-8 |
| Describe.EstimateCovers | internal/tools/perforce.go:172-181 | the estimate covers the encoded file if and only if escaping adds at most 15 bytes |
| Describe.EstimateFallsShort | internal/tools/perforce.go:172-181 | a path with four ampersands, or four control bytes, is encoded longer than estimated |
| Describe.EncodedListLength | internal/tools/perforce.go:158-177 | the exact length of the encoded list in terms of its estimate |
| Describe.EncodedListFits | internal/tools/perforce.go:158-166 | it is covered exactly when escaping adds at most 15 bytes a file on the average, and then within the budget |
| Describe.CappedBuffer.Write | internal/tools/perforce.go:235-247 | the buffer holds the first bytes of all input up to the limit, overflowed exactly beyond it, and reports the full length each time |
| Describe.CappedBuffer.WriteAll | internal/tools/perforce.go:235-247 | the same for any series of writes |
| Utf8.FirstLineOfText | internal/tools/perforce.go:412-417 | only blank text, in Go's Unicode sense, is trimmed to nothing, and any other has a first line that is not empty |
| Utf8.RunesAreEncodings | internal/tools/perforce.go:412-417 | the bytes taken for one rune are exactly the UTF-8 encodings of Unicode scalar values |
| Utf8.SpacesAreUnicode | internal/tools/perforce.go:412-417 | the runes trimmed are the 25 code points Unicode calls white space |
| Utf8.TrimmedExactly | internal/tools/perforce.go:376 | trimming takes blank text off both ends and leaves none |
| Describe.FirstErrorRecord | internal/tools/perforce.go:369-392 | the trimmed first line of the first record that reports an error, empty exactly when there is none |
| Describe.SeverityDecides | internal/tools/perforce.go:382-394 | a record counts from severity 3 on, or without one |
| Describe.FailureDetail | internal/tools/perforce.go:344-352 | one line, never empty beside a wait status, from the most specific source there is |
| Clamps.Deadline | internal/session/session.go:373-379 | above zero and at most 60 s for every 64-bit request |
| Clamps.DeadlineIsIntended | internal/session/session.go:373-379 | the documented deadline for every request that does not wrap, and exactly when the wrapped product keeps its side |
| Clamps.HugeDeadlineWraps | internal/session/session.go:373-376 | the first request that wraps gets the default |
| Clamps.Heartbeat | internal/session/session.go:186-198 | between 5 and 120 s for every 64-bit offer |
| Clamps.HeartbeatIsIntended | internal/session/session.go:186-198 | the documented interval exactly outside the wrapped offers that fall into the range |
| Clamps.HugeHeartbeatWraps | internal/session/session.go:193-197 | such an offer |
| Clamps.MaxBytes | internal/session/session.go:383-386 | what was asked for between 1 and the verb's default, and the default otherwise |
| Clamps.CeilingDoubles | internal/session/session.go:146-150 | neither the shift nor its limit of twelve shows: the ceiling doubles with each attempt up to 60 s |
| Clamps.BackoffRange | internal/session/session.go:146-153 | the waits that can be drawn are exactly those from 0.5 s to below the ceiling plus 0.5 s |
| Clamps.CapIsPassed | internal/session/session.go:146-153 | a wait keeps the documented cap exactly up to the seventh attempt or for draws up to 59.5 s |
| Clamps.LongestWait | internal/session/session.go:152 | a wait one nanosecond short of 60.5 s |
| Clamps.StreakReachesBack | internal/session/session.go:96-128 | the attempts counted are those since the last session that came up, or all |
| Clamps.Run | internal/session/session.go:96-128 | over any life of the process every wait is within the bounds of its place in the streak, which a session that came up resets |

## Left out

- TLS, the HTTP upgrade, the accept key and `Dial`: the model starts from an open byte stream.
- A write deadline is a socket error like any other; a TLS socket that failed one write is modelled as
  failing all later ones.
- The JSON, YAML and regexp engines: arguments are a map of decoded values, patterns are predicates, p4
  output is a sequence of decoded records. Trailing text after an args object, which Go's decoder ignores,
  is not represented.
- The peer's writes always succeed, and every way its socket can close is one error.
- Session.Runner.HandleCommand: runs one command at a time; concurrent handlers share only the map of ids and the log,
  each behind a mutex, and the statements over whole runs take commands in the order of their claims.
- Session.Runner.Claim: instants are integers, so Go's saturation of differences beyond 292 years is not modelled.
- The wording of refusals is an input of the command path; the digest of the arguments is opaque, and file
  rotation and durations are not modelled.
- `url.Parse` is not part of this model: what it makes of the two URLs is an input.
- Describe.FirstErrorRecord: what `numField` parses is given as a number; one that is NaN compares as below 3, as in Go.
- `Idle` takes frames as whole: the effect of a deadline inside a frame or message is the subject of `Messages`.
- `Pump`: a blocked read, write or tool call ends in some step; how long that takes is not modelled.
- `CompiledVerbs`, `Redacted`, `toolVersions`, `p4.changes` shaping and the TeamCity client add only easy members.
