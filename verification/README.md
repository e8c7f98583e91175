# A verified model of a solo mining pool

The pool serves Bitcoin miners over Stratum V1 and Stratum V2. This project models the parts of it that have to be
right for work and blocks not to get lost: the job publication protocol, the SV2 session and its share pipeline, the
Noise transport, the exact difficulty arithmetic, the codecs, the construction of work, and block submission.

Concurrency is modelled by state machines whose actions are the regions the program runs under a mutex; a run is any
sequence of actions, and what is stated holds after every run. Objects the program updates in place are classes, and
every loop is a method with invariants, proved against a function on values. Hashes, the AEAD cipher, the handshake,
clocks and the rounding of a floating-point operation are parameters about which only the laws named in a contract are
known.

How the modules follow the program:

- Publication: `JobCache` (the cached jobs), `Publication` (broadcasters, publication thread, refreshers, sessions),
  `UpdateOrder` (what a channel update does to the order).
- SV2 session: `Channels` (the state machine), `LiveChannel` (the same updates on shared job objects), `SharePipeline`.
- SV2 wire: `Wire`, `FrameCodec`, `Messages`, `MessageRecords`, `Streams`, `NoiseStream` (what a sealed stream means), `NoiseSession` (the
  library's loops), `NoiseConnection` (the incremental receiver), `NoiseSending`, `NoiseWire` (what ends up on the wire).
- Arithmetic: `WideArithmetic`, `Doubles`, `Difficulty`, `TargetSplit`, `Vardiff`, `Extranonce`.
- Codecs: `Bech32Checksum`, `Bech32Radix`, `SegwitAddress`, `Base58`, `CompactSizes`, `Transactions`, `BlockReader`,
  `BlockAssembly`.
- Work: `Merkle`, `WorkSignature`, `ShareValidation`, `DedupKey`, `ShareIdentity`, `ShareMemory`,
  `ShareLedger` (what a session credits over a whole run).
- Blocks found: `Submission`.
- Shared definitions: `Numbers`, `Options`, `Sequences`, `Xors`, `Text`, `Codecs`.

`dafny verify dfyconfig.toml` checks everything.

## Where a property fails, and exactly when it holds

- A job that answers `UpdateChannel` is issued without a look at publication stamps, and
  `UpdateOrder.UpdateOvertakesPublication` is a run in which a channel is issued publications 1, 3, 2. A channel is in
  publication order after a run exactly when no step of the run committed a late job to it, one that passes the test
  against the last publication and is older than the last job issued (`UpdateOrder.IssuedInOrderExactly`). Runs without
  such answers are a special case (`UpdateOrder.IssuedInOrderWithoutUpdates`), and what `publish_job` and
  `maybe_refresh_job` commit is in order among itself in every run (`Publication.DeliveryIsOrdered`).
- A work signature joins its tokens with separators but does not mark a coinbase witness. It determines its work exactly
  when there is a required output, or neither witness nor branch (`WorkSignature.DeterminedExactly`); otherwise the
  witness and the head of the branch can be taken for each other, and that is the only collision
  (`WorkSignature.OnlyCollision`). In every colliding pair one work has a witness and no output; neither template reader
  lets such a template through (`WorkSignature.ReadersAreProper`), so among templates that can occur the signature is
  injective (`WorkSignature.SignatureInjective`).
- An SV1 session tells shares apart by the text of the submission. Leaving the version bits out and asking for the job's
  own bits is one piece of work under two keys (`ShareIdentity.OneWorkTwoKeys`). Accepted shares with one header and
  coinbase have one key exactly when they agree in whether they carry version bits and in the mask
  (`ShareIdentity.SameWorkSameKeyExactly`).
- An SV1 session remembers a key before it validates the share, and an empty field has the key of zero. So a submission
  with its nonce left empty, which is malformed, makes the share with nonce 0 a duplicate
  (`ShareLedger.EmptyNonceBlocksZero`). A submission with the key of an accepted share is accepted too, with the same
  verdict, exactly when none of its fields is empty (`ShareIdentity.AcceptedUnderKeyExactly`).
- A standard job and an extended channel that follows it in one session can be given the same extranonce:
  `Extranonce.MeetingRunMeets` is a run with two bytes of extranonce in which the second standard job and channel 2 are.
  Their search spaces meet exactly when the job's counter has the channel's id in its two leading bytes
  (`Extranonce.MixedMeetExactly`, and in numbers `Extranonce.OverlapInNumbers`), so never while the counter fits the
  bytes below them (`Extranonce.ApartWhileCounterIsSmall`). All other searchers that can exist together are disjoint
  (`Extranonce.SearchSpacesDisjoint`).
- A received flag is read by its lowest bit, so a payload that decodes is the encoding of what it decodes to exactly when
  its flag was sent as 0 or 1 (`Messages.DecodedIsEncoding`, `Messages.FlagsReadByLowestBit`).
- A block round-trips through the reader exactly when the template's transaction count is not 2^32 - 1, where adding the
  coinbase wraps (`BlockAssembly.BlockRoundTrip`).
- A segwit address round-trips exactly when the program's length suits its version and the address has at most ninety
  characters (`SegwitAddress.EncodeThenDecode`); for the prefixes in use the second always holds
  (`SegwitAddress.PrefixesInUse`).

## Model

| member | source | states |
|---|---|---|
| JobCache.PublishMirrors | src/pool/pool.cpp:257-286 | A publication appends to the history with the next stamp, never lowers the height, and leaves the cache the newest 24 of the history |
| JobCache.CacheShape | src/pool/pool.cpp:257-286 | The cache has at most 24 jobs with rising stamps, heights that never fall and distinct ids, and its last job is the current one |
| JobCache.JobStore.Find | src/pool/pool.cpp:633-637 | A lookup gives a cached job with that id, and gives nothing only if no cached job has it |
| JobCache.JobStore.Evict | src/pool/pool.cpp:281-284 | Eviction over the id queue and the id map leaves exactly the newest 24 jobs |
| JobCache.JobStore.Broadcast | src/pool/pool.cpp:257-286 | The in-place update refines the decision on values: duplicates, lower heights and known parents change nothing, anything else is published |
| Publication.CoalesceMerges | src/pool/pool.cpp:308-330 | Queueing keeps one entry per session in its place, the newer job, and any clean flag, and leaves every other entry alone |
| Publication.FindJobFinds | src/pool/pool.cpp:633-637 | The publication thread's lookup finds the job of that id or knows there is none |
| Publication.RunKeeps | src/pool/pool.cpp:257-353 | Over every interleaving of broadcasters, publication thread, refreshers, connects, disconnects and requests the protocol invariant holds |
| Publication.CacheOfEveryRun | src/pool/pool.cpp:257-286 | After any run the cache is the tail of the publication history, holds the current job, and is ordered by stamp and height |
| Publication.DeliveryIsOrdered | src/stratum/session.cpp:243-287 | In every run the stamps an SV1 session sends, and those committed to a channel by publication and refresh, never decrease |
| Publication.QuietMeansDelivered | src/pool/pool.cpp:288-353 | Whenever no broadcast or publication is under way, every connected ready miner and every channel has the newest job |
| UpdateOrder.StepInOrderExactly | src/sv2/session.cpp:605-702 | A step keeps what a channel was issued in publication order exactly when it does not commit a late job to it |
| UpdateOrder.IssuedInOrderExactly | src/sv2/session.cpp:436-702 | After any run what a channel was issued is in publication order exactly when no step of the run committed a late job to it |
| UpdateOrder.IssuedInOrderWithoutUpdates | src/sv2/session.cpp:605-702 | In a run without updates answered by a job no commit is late and every channel is in order |
| UpdateOrder.UpdateOvertakesPublication | src/sv2/session.cpp:436-483 | A run in which an update is answered with job 3 before job 2 is committed, so the channel is issued 1, 3, 2 |
| Channels.RunKeeps | src/sv2/session.cpp:317-603 | Every interleaving of opens, updates, closes, retargets, and plans prepared, dropped or committed late keeps the session invariant |
| Channels.ReachableSession | src/sv2/session.cpp:317-603 | One standard channel or at most 255 extended ones; at most eight jobs a channel, of its kind and on its parent; only the first may follow the channel's target and then has it; targets within the device maximum |
| Channels.IdsNeverReused | src/sv2/session.cpp:388-434 | A channel id given out and closed never names a channel again |
| Channels.StoreOnlyMovesTargets | src/sv2/session.cpp:993-1005 | No action changes anything of an issued job but its target, and that only while the job follows its channel |
| Channels.ChannelsIsolated | src/sv2/session.cpp:436-603 | In every reachable state an action on other channels leaves a channel, and every job it holds, as they are |
| Channels.UpdateSetsTarget | src/sv2/session.cpp:436-483 | After an accepted update the channel has the requested target within the new device maximum, and so has a job that follows it |
| LiveChannel.Live.CommitJob | src/sv2/session.cpp:547-603 | A clean job or one on another parent starts the queue afresh and follows the channel; any other is appended, the oldest beyond eight dropped |
| LiveChannel.Live.PopOldest | src/sv2/session.cpp:547-603 | The loop leaves the newest eight jobs |
| LiveChannel.Live.ChangeTarget | src/sv2/session.cpp:993-1005 | Through shared references exactly the jobs that follow the channel take its new target |
| SharePipeline.RunSound | src/sv2/session.cpp:779-948 | Whatever other threads do while the mutex is released, the pipeline invariant holds |
| SharePipeline.EveryShareOnce | src/sv2/session.cpp:779-948 | One accounting call and one response per dispatched share, in order and in agreement; credit at the target the share was judged by; the wrong-variant failure never occurs |
| SharePipeline.BlocksAllDelivered | src/sv2/session.cpp:139-188 | From the end of the bytes on, whatever other threads do, one turn per block and one more leave the pipeline idle with nothing pending and every block-solving share delivered, once and in order |
| SharePipeline.BlocksInDistinct | src/sv2/session.cpp:139-188 | The deliveries are distinct shares and include every credited share that solved a block |
| FrameCodec.EncodeFrame | src/sv2/codec.cpp:17-27 | Refused exactly when the payload exceeds the three-byte length; otherwise the bytes parse to that one frame |
| FrameCodec.ParseContinues | src/sv2/codec.cpp:29-64 | Parsing a stream in two parts gives the frames, rest and overrun of parsing it whole |
| FrameCodec.ParseEncoded | src/sv2/codec.cpp:17-64 | Concatenated encoded frames parse to exactly those frames |
| FrameCodec.ParsedEncodes | src/sv2/codec.cpp:17-64 | A stream without overrun is the encoding of the frames parsed from it and what is left |
| FrameCodec.FeedIsParse | src/sv2/codec.cpp:29-82 | However a stream is cut, the pushes give what the whole stream gives and none fails exactly when no header announces too much; otherwise what the whole stream gives comes out before the decoder starts afresh |
| FrameCodec.PushAll | src/sv2/codec.cpp:29-89 | A decoder pushed chunk after chunk, restarted by each failure, hands out exactly those frames and failures |
| FrameCodec.AnyChunkingDecodes | src/sv2/codec.cpp:17-64 | Encoded frames survive any chunking |
| FrameCodec.FrameDecoder.Push | src/sv2/codec.cpp:29-64 | The consuming loop returns the frames of the unfinished bytes and the new ones, keeps what is unfinished, and fails exactly on an oversized announcement |
| FrameCodec.FrameDecoder.BeginPayload | src/sv2/codec.cpp:71-82 | A complete header starts a payload exactly when it announces no more than the limit; otherwise the decoder is reset |
| FrameCodec.FrameDecoder.Finish | src/sv2/codec.cpp:66-69 | The end of the stream is accepted exactly between frames |
| Messages.FieldReads | src/sv2/messages.cpp:15-161 | Every field reads back as it was written, whatever follows |
| Messages.FieldAccepts | src/sv2/messages.cpp:75-161 | Except for flags only what the writer writes is read |
| Messages.EncodePayload | src/sv2/messages.cpp:165-348 | Field by field the writer produces the concatenation, and throws exactly when some value is too long |
| Messages.DecodePayload | src/sv2/messages.cpp:155-546 | Field by field the reader decodes, and refuses anything left over |
| Messages.MessageRoundTrip | src/sv2/messages.cpp:165-546 | Every message payload decodes to itself, and with trailing bytes to nothing |
| MessageRecords.ListsAgree | src/sv2/messages.cpp:165-546 | The writer's and the reader's list of a message name the same fields of the same kinds in the same order |
| MessageRecords.RecordRoundTrip | src/sv2/messages.cpp:165-546 | Every message written field by field is read back with every value under its own name, and with trailing bytes not at all |
| Messages.DecodedIsEncoding | src/sv2/messages.cpp:350-546 | A payload that decodes is the encoding of its values exactly when its flags were sent as 0 or 1; only the extended job has a flag |
| Messages.FlagsReadByLowestBit | src/sv2/messages.cpp:75-161 | A flag byte 3 reads as 1, which the writer would not write as 3 |
| Messages.FramedMessageRoundTrip | src/sv2/messages.cpp:165-546 | No message is too long for a frame, and framed into any stream it comes back as itself |
| Streams.OpenResumes | src/sv2/noise_connection.cpp:231-315 | For any rule that decides a head of the stream once and for all, opening in two parts is opening the whole |
| Streams.ReadsPrefix | src/sv2/noise_connection.cpp:231-315 | Whatever arrives, what comes out is whole leading pieces, and those are what was consumed |
| Streams.ReadsWhole | src/sv2/noise_connection.cpp:231-315 | Pieces that arrive unaltered and are allowed all come out |
| NoiseStream.SizesAgree | src/sv2_noise/src/sv2_noise.c:738-743 | The connection's and the library's formulas for the size of a sealed payload agree for every size |
| NoiseStream.OpenedChunksAreSealed | src/sv2_noise/src/sv2_noise.c:1178-1248 | Chunks open exactly when they are the peer's sealed chunks at those nonces, and then to the peer's payload |
| NoiseStream.ReceiverStable | src/sv2/noise_connection.cpp:231-315 | What the receiver decides about the head of a stream does not change when more arrives |
| NoiseStream.OnlyThePeersFrames | src/sv2/noise_connection.cpp:231-315 | For any bytes, the output is a whole-frame prefix of what the peer sealed, and the nonces used are one per message of it |
| NoiseStream.AllThePeersFrames | src/sv2/noise_connection.cpp:231-315 | The unaltered stream, with payloads within the limit and nonces to spare, gives every frame |
| NoiseSession.Session.CheckCapacity | src/sv2_noise/src/sv2_noise.c:721-736 | Room for a number of messages is granted exactly when the session lives and the nonces suffice; otherwise the session ends |
| NoiseSession.Session.Seal | src/sv2_noise/src/sv2_noise.c:356-376 | Each sealed message takes the next nonce; the last one is never used |
| NoiseSession.Session.Open | src/sv2_noise/src/sv2_noise.c:378-398 | The nonce moves on exactly past what opened |
| NoiseSession.Session.EncryptHeader | src/sv2_noise/src/sv2_noise.c:1024-1066 | A header of the right size is sealed at the next nonce or ends the session; another size is refused without effect |
| NoiseSession.Session.EncryptPayload | src/sv2_noise/src/sv2_noise.c:1113-1176 | The chunk loop seals the whole payload at consecutive nonces or nothing: exhaustion inside the loop is unreachable |
| NoiseSession.Session.DecryptHeader | src/sv2_noise/src/sv2_noise.c:1068-1111 | A sealed header opens at the next nonce or ends the session |
| NoiseSession.Session.DecryptPayload | src/sv2_noise/src/sv2_noise.c:1178-1248 | The chunk loop opens all chunks at consecutive nonces or ends the session; a wrong size is refused without effect |
| NoiseConnection.Connection.DecryptTransport | src/sv2/noise_connection.cpp:231-315 | The incremental loop gives what the buffered bytes and the new ones together mean, for any split into calls |
| NoiseConnection.Connection.Receive | src/sv2/noise_connection.cpp:189-229 | Act 1 is collected across calls and what follows it in the same bytes is deciphered as transport |
| NoiseConnection.Connection.EstablishTransport | src/sv2/noise_connection.cpp:139-187 | Agreement starts an empty transport at nonce 0; anything else ends the connection |
| NoiseConnection.Connection.Terminate | src/sv2/noise_connection.cpp:116-132 | The session is dropped and nothing more is read |
| NoiseConnection.Connection.Finish | src/sv2/noise_connection.cpp:419-427 | The end is clean exactly when a live transport is between frames |
| NoiseConnection.AnyFragmentation | src/sv2/noise_connection.cpp:189-315 | However a stream is cut into receive calls, link and output are those of the whole stream |
| NoiseConnection.ConnectionIsFaithful | src/sv2/noise_connection.cpp:189-315 | Any bytes in any fragmentation give a whole-frame prefix of the peer's frames, and the unaltered stream gives them all |
| NoiseSending.EncryptFrame | src/sv2/noise_connection.cpp:360-405 | One frame is sealed straight from the plain bytes, header then chunks, or the session ends |
| NoiseSending.EncryptFrames | src/sv2/noise_connection.cpp:360-405 | The loop over frames produces one sealed stream of all their messages, exactly when the nonces suffice |
| NoiseSending.SendBytes | src/sv2/noise_connection.cpp:324-417 | Bytes are sent exactly when they are a nonempty series of whole frames and the nonces suffice |
| NoiseWire.RunKeeps | src/sv2/noise_connection.cpp:139-229 | Every interleaving of receiving, sending and ending threads keeps the wire invariant |
| NoiseWire.OneSealedStreamAfterAct2 | src/sv2/noise_connection.cpp:139-417 | Act 2 is sent once and first; what follows it is one sealed stream under nonces 0, 1, 2, ... once each |
| WideArithmetic.ShiftLeft | src/util/difficulty.cpp:31-45 | The word loop multiplies by the power of two modulo 2^320 |
| WideArithmetic.Compare | src/util/difficulty.cpp:47-55 | The order of the words is the order of the numbers |
| WideArithmetic.BitLength | src/util/difficulty.cpp:57-64 | The number of binary digits of the whole number |
| WideArithmetic.Subtract | src/util/difficulty.cpp:66-75 | The in-place borrow loop subtracts the numbers |
| WideArithmetic.Divide | src/util/difficulty.cpp:77-93 | dividend = quotient * divisor + remainder with the remainder below the divisor |
| Difficulty.RoundQuotient | src/util/difficulty.cpp:110-150 | The quotient is rounded to the nearest integer, ties to even |
| Difficulty.ExactRatioToDouble | src/util/difficulty.cpp:110-150 | The result is the double nearest to the exact ratio among all 53-bit dyadics, ties to even, with a normal significand and no bit lost in a shift |
| Difficulty.DifficultyFromTarget | src/util/difficulty.cpp:176-181 | For every nonzero target the double nearest to 0xffff * 2^208 / target, ties to even; infinity for zero |
| Difficulty.TargetInteger | src/util/difficulty.cpp:102-108 | The words hold the target's number |
| Difficulty.DifficultyOneNumerator | src/util/difficulty.cpp:95-100 | The words hold 0xffff * 2^208 |
| Difficulty.TargetFromCompact | src/util/difficulty.cpp:154-174 | The bytes spell mantissa * 256^(exponent - 3), shifted down for small exponents and cut to 256 bits for large ones |
| Difficulty.WriteMantissa | src/util/difficulty.cpp:154-174 | Three bytes written from an index, those past the end dropped, spell the shifted mantissa modulo 2^256 |
| TargetSplit.PartsRepresentable | src/util/difficulty.cpp:195-212 | Quotient and remainder of a 53-bit dyadic by a power of two are 53-bit dyadics |
| TargetSplit.PeelWord | src/util/difficulty.cpp:197-207 | Division, truncation, conversion, product and subtraction of one word are exact although each is rounded |
| TargetSplit.FourWords | src/util/difficulty.cpp:197-212 | The bytes of four words spell the number of the words |
| TargetSplit.SplitQuotient | src/util/difficulty.cpp:197-212 | For every double below 2^256 the four words store its floor |
| TargetSplit.TargetFromDifficulty | src/util/difficulty.cpp:187-213 | All ones unless the difficulty exceeds the minimum, zero for infinity, and otherwise the floor of the rounded quotient, which is always below 2^256 |
| Vardiff.StepIs | src/stratum/session.cpp:47-56 | A retarget doubles, halves or stays, within the bounds |
| Vardiff.NeverReverses | src/stratum/session.cpp:47-56 | Under a constant hashrate the difficulty only rises from a start that is too fast and only falls from one too slow |
| Vardiff.SettledMeans | src/stratum/session.cpp:47-56 | A difficulty is a fixed point exactly when it is in the band or pinned at the bound its rate pushes against |
| Vardiff.Converges | src/stratum/session.cpp:47-56 | In finitely many retargets a fixed point is reached, in the band or at the bound it was moving toward |
| Extranonce.WriteCounter | src/pool/pool.cpp:246-255 | The byte loop writes the low bytes of the counter, most significant first, and nothing before them |
| Extranonce.CountersDiffer | src/pool/pool.cpp:246-255 | Counters less than 256^n apart have different n-byte forms |
| Extranonce.SessionsDiffer | src/pool/pool.cpp:246-255 | Any 256^k consecutive sessions, k the counter bytes, have different extranonces |
| Extranonce.StandardJobsDiffer | src/sv2/session.cpp:107-116 | Standard prefixes differ within any 256^size allocations |
| Extranonce.ChannelsDiffer | src/sv2/session.cpp:395-412 | Channels of one session have different prefixes |
| Extranonce.SearchSpacesDisjoint | src/sv2/session.cpp:395-412 | No extranonce is searched by two sessions, by two standard jobs or two channels of one session, or by a standard job and a channel of one session whose id is not in the job's two leading counter bytes |
| Extranonce.MixedMeetExactly | src/sv2/session.cpp:107-116 | A standard job and an extended channel of one session share an extranonce exactly when the job's counter has the channel's id in its two leading bytes |
| Extranonce.OverlapInNumbers | src/sv2/session.cpp:395-405 | That is when the counter divided by 256^(size - 2), modulo 65536, is the id |
| Extranonce.ApartWhileCounterIsSmall | src/sv2/session.cpp:107-116 | They share none while the counter is below 256^(size - 2), ids starting at 1 |
| Extranonce.StandardAndChannelMeet | src/sv2/session.cpp:107-116 | With two bytes the second standard job and channel 2 have the same single extranonce |
| Extranonce.MeetingRunMeets | src/sv2/session.cpp:317-434 | A reachable run in which both are issued on one parent |
| Extranonce.ExtranonceFills | src/stratum/job.cpp:160-173 | Prefix and what is left to the miner fill the template's extranonce exactly |
| Bech32Checksum.PolymodStep | src/util/bech32.cpp:18-30 | One turn of the loop is one step of the checksum polynomial |
| Bech32Checksum.Polymod | src/util/bech32.cpp:18-30 | The loop computes the checksum word of its symbols |
| Bech32Checksum.PolyLinear | src/util/bech32.cpp:18-30 | The checksum of a symbolwise exclusive or is the exclusive or of the checksums |
| Bech32Checksum.StepBound | src/util/bech32.cpp:18-30 | Thirty bits suffice, so no 32-bit word overflows |
| Bech32Checksum.StepKeepsDifference | src/util/bech32.cpp:18-30 | Feeding a symbol is injective on checksum words |
| Bech32Checksum.BurstIsDetected | src/util/bech32.cpp:18-56 | Any change within six consecutive symbols, a single one included, changes the checksum word |
| Bech32Checksum.ChecksumVerifies | src/util/bech32.cpp:58-68 | The created checksum verifies under its constant, for every prefix and data |
| Bech32Radix.ConvertBits | src/util/bech32.cpp:77-102 | The accumulator loop regroups the bits of the whole number, pads, and refuses bad digits or leftovers |
| Bech32Radix.BytesRoundTrip | src/util/bech32.cpp:77-102 | Every byte string survives the way to symbols and back |
| Bech32Radix.SymbolsRoundTrip | src/util/bech32.cpp:77-102 | Symbols that regroup into bytes are the symbols of those bytes |
| SegwitAddress.ChecksumUnique | src/util/bech32.cpp:47-68 | Only one checksum fits given data and constant |
| SegwitAddress.EncodeThenDecode | src/util/bech32.cpp:110-207 | An encoded address decodes to its version and program exactly when the program's length suits the version and the address has at most ninety characters |
| SegwitAddress.PrefixesInUse | src/bitcoin/address.cpp:23-34 | For every prefix the pool uses every valid program round-trips |
| SegwitAddress.DecodeThenEncode | src/util/bech32.cpp:110-207 | An accepted address is, up to letter case, the encoding of what it decodes to |
| SegwitAddress.NearbyAddressRejected | src/util/bech32.cpp:110-179 | Changing up to six characters in a row after the version of an accepted address never gives an accepted one |
| Base58.AlphabetIs | src/util/base58.cpp:13-24 | The places of the characters are their places in the alphabet |
| Base58.MultiplyAdd | src/util/base58.cpp:28-83 | The carry loop computes digits * base + value in place, digits in range and without leading zeros |
| Base58.TranscodeTwice | src/util/base58.cpp:28-83 | Converting to another base and back gives the digits that were there, leading zeros included |
| Base58.TryDecode | src/util/base58.cpp:28-53 | The loops decode, and refuse exactly what has a character outside the alphabet |
| Base58.EncodeBytes | src/util/base58.cpp:61-84 | The loops encode every byte string |
| Base58.EncodeThenDecode | src/util/base58.cpp:28-84 | Every byte string decodes from its encoding |
| Base58.DecodeThenEncode | src/util/base58.cpp:28-84 | Every string over the alphabet decodes, and is the encoding of what it decodes to |
| Base58.CheckRoundTrip | src/util/base58.cpp:86-108 | With any hash, a payload decodes from its checksummed encoding |
| Base58.CheckCanonical | src/util/base58.cpp:86-108 | What the checksummed decoder accepts is the encoding of its payload |
| CompactSizes.TakeReads | src/util/varint.cpp:9-48 | Every number reads back from its variable-length form, whatever follows |
| CompactSizes.TakeAccepts | src/util/varint.cpp:29-48 | Only the shortest form of a number is accepted |
| Transactions.TransactionReads | src/bitcoin/mining_ipc_client.cpp:65-103 | A well-formed transaction followed by any bytes is taken off exactly |
| Transactions.TransactionAccepts | src/bitcoin/mining_ipc_client.cpp:65-103 | Nothing but a well-formed transaction is ever taken off |
| BlockReader.SkipTransaction | src/bitcoin/mining_ipc_client.cpp:65-103 | On arbitrary bytes the cursor is left after exactly one transaction or refuses; every loop uses up input in every turn, so the remaining input bounds the work whatever counts are announced |
| BlockAssembly.LegacyIsTransaction | src/bitcoin/coinbase.cpp:21-61 | The coinbase halves joined around the extranonce are a serialized transaction |
| BlockAssembly.WitnessIsTransaction | src/bitcoin/coinbase.cpp:63-85 | Splicing in the witness gives the same transaction with a one-item witness |
| BlockAssembly.HeaderRoundTrip | src/stratum/job.cpp:191-203 | The header reads back as its version, time, bits and parent, with the root at its place |
| BlockAssembly.FillBlockFields | src/bitcoin/mining_ipc_client.cpp:133-149 | The reader takes a block apart into header, count and the bytes after the coinbase |
| BlockAssembly.BlockRoundTrip | src/bitcoin/mining_ipc_client.cpp:133-149 | A block built around any coinbase reads back as the same header, count and bytes exactly when the count does not wrap |
| BlockAssembly.ShareBlockRoundTrip | src/stratum/job.cpp:323-334 | So does the block of a share, plain or with its witness, under the same exact condition |
| Merkle.Halve | src/util/merkle.cpp:26-47 | Padding and collapsing hash the nodes of a level two by two, an odd one with itself |
| Merkle.MerkleRoot | src/util/merkle.cpp:38-47 | The level loop computes the root, and zero for no leaves |
| Merkle.MerkleBranch | src/util/merkle.cpp:49-66 | The branch has the tree's depth and folds any coinbase to the root of the whole tree |
| Merkle.RootFromBranch | src/util/merkle.cpp:68-73 | The loop folds the coinbase through the branch |
| Merkle.RootIsTopNode | src/util/merkle.cpp:38-47 | Level by level or node by node, the root is the same |
| Merkle.FoldIsRoot | src/util/merkle.cpp:38-73 | Folding any coinbase through the branch is the root of coinbase and other leaves, whatever placeholder the branch was made with |
| Merkle.BranchLength | src/util/merkle.cpp:49-66 | The branch has one node per halving |
| Merkle.DepthIsLogarithm | src/bitcoin/capnp_mining_client.cpp:78-86 | The number of halvings is the least depth whose power of two reaches the width |
| Merkle.ExpectedDepth | src/bitcoin/capnp_mining_client.cpp:78-86 | The template test counts the halvings, so it expects exactly the branch's length |
| WorkSignature.SignatureInjective | src/stratum/job.cpp:126-143 | The joined string determines every field it was built from |
| WorkSignature.SameSignatureSameHeaders | src/stratum/job.cpp:126-158 | Jobs with one signature have the same headers for every payout, extranonce, time, nonce and version |
| WorkSignature.DeterminedExactly | src/stratum/job.cpp:126-143 | No other work has a work's signature exactly when the work has a required output, or neither witness nor branch |
| WorkSignature.OnlyCollision | src/stratum/job.cpp:126-143 | Two works with one signature differ only in whether one hash is the witness or the head of the branch |
| WorkSignature.ReadersAreProper | src/bitcoin/capnp_mining_client.cpp:87-91 | A template either reader lets through has a required output whenever it has a witness |
| WorkSignature.WitnessNeedsOutput | src/stratum/job.cpp:126-158 | For every colliding pair: the roots fold the rest of the branch from the coinbase id, and from that id hashed with the moved hash |
| ShareValidation.RollStaysUnderMask | src/stratum/job.cpp:226-240 | Rolling changes only bits under the mask, and to the bits asked for |
| ShareValidation.Sv1AcceptsExactly | src/stratum/job.cpp:205-253 | An SV1 share is accepted exactly when its fields parse and a version that carries the bits asked for passes |
| ShareValidation.ExtendedIsStandard | src/stratum/job.cpp:271-297 | However an extranonce is cut into prefix and rest, the extended validator gives the verdict of the standard one on the whole |
| ShareValidation.Sv1IsStandard | src/stratum/job.cpp:205-269 | On the session's coinbase halves the SV1 validator gives the verdict of the standard one with the rolled version |
| ShareValidation.ExtendedAcceptsExactly | src/stratum/job.cpp:271-297 | An extended share is accepted exactly when prefix and extranonce fill the template and the coinbase around both passes |
| ShareValidation.Sv1Vouches | src/stratum/job.cpp:205-321 | An accepted SV1 share's header has the job's parent, bits, time window and root, a version changed only under the mask, and a low hash |
| ShareValidation.StandardVouches | src/stratum/job.cpp:255-321 | The same of an accepted standard share |
| ShareValidation.ExtendedVouches | src/stratum/job.cpp:271-321 | The same of an accepted extended share |
| ShareValidation.ShareCoinbaseIsLegacy | src/stratum/job.cpp:145-158 | The coinbase of a share that fills the template is a serialized legacy transaction with that extranonce |
| ShareValidation.Sv1ShareMakesBlock | src/stratum/job.cpp:205-334 | Every accepted SV1 share makes a block whose header root is the full root of coinbase and template transactions, which reads back as built unless the count wraps, and which counts as a block exactly when it meets its own bits |
| ShareValidation.StandardShareMakesBlock | src/stratum/job.cpp:255-334 | The same of every accepted standard share |
| ShareValidation.ExtendedShareMakesBlock | src/stratum/job.cpp:271-334 | The same of every accepted extended share |
| DedupKey.CanonicalIff | src/stratum/session.cpp:24-39 | Fields of at most eight hexadecimal digits have one canonical text per value |
| DedupKey.BytesIff | src/stratum/session.cpp:24-39 | Hexadecimal texts spell the same bytes exactly when they agree up to letter case |
| DedupKey.KeysEqualIff | src/stratum/session.cpp:551-572 | Two keys are equal exactly when job id, extranonce2 bytes, time, nonce, presence and value of version bits, and mask are |
| ShareIdentity.SameWorkSameKeyExactly | src/stratum/session.cpp:551-572 | Accepted shares of one job with one header and coinbase have one key exactly when they agree in presence of version bits and in the mask |
| ShareIdentity.AcceptedUnderKeyExactly | src/stratum/session.cpp:408-490 | A submission with the key of an accepted share is accepted, with the same verdict, exactly when none of its time, nonce and version bits is empty |
| ShareIdentity.EmptyNonceHasKeyOfZero | src/stratum/session.cpp:35-39 | A share with nonce 0 and the same one with an empty nonce have one key, and the second is refused as malformed |
| ShareIdentity.Sv2SameWorkSameKeyExactly | src/sv2/session.cpp:819-833 | Accepted SV2 shares of one issued job have one header and coinbase exactly when they have one key |
| ShareIdentity.OneWorkTwoKeys | src/stratum/job.cpp:226-240 | Leaving the version bits out and asking for the job's own bits get one verdict and two keys |
| ShareMemory.StaysBounded | src/sv2/session.cpp:125-137 | Neither set ever exceeds its bound |
| ShareMemory.RefusedUntilTwoRotations | src/stratum/session.cpp:184-198 | A remembered key is refused until two rotations have happened |
| ShareMemory.ForgottenAfterTwoRotations | src/stratum/session.cpp:184-198 | After two rotations it is forgotten unless submitted again |
| ShareMemory.FullSetsRetired | src/stratum/session.cpp:184-198 | Without clean jobs every rotation retires exactly a full set |
| ShareMemory.SurvivesNewerKeys | src/sv2/session.cpp:704-713 | Without clean jobs a key outlives at least 16384 newer ones |
| ShareMemory.SeenShares.Remember | src/sv2/session.cpp:704-713 | The key is new exactly when neither set has it, and is then added after a full set is retired |
| ShareMemory.SeenShares.CleanJob | src/sv2/session.cpp:125-137 | A clean job retires the live set unless it is empty |
| ShareLedger.OncePerWork | src/stratum/session.cpp:408-520 | In every run of an SV1 session one header and coinbase credited twice on a job, alike in presence of version bits and mask, has at least two rotations of the memory in between |
| ShareLedger.EmptyNonceBlocksZero | src/stratum/session.cpp:455-490 | After a submission with an empty nonce the share with nonce 0 is not credited, although it would be accepted |
| ShareLedger.Sv2OncePerWork | src/sv2/session.cpp:819-833 | In an SV2 session one header and coinbase of an issued job found new twice has at least two rotations in between |
| Submission.Aggregate | src/bitcoin/rpc_client.cpp:276-320 | One pass over the endpoints' answers ends with the most favourable of them, by the first reason of its kind, or an exception when nothing conclusive came |
| Submission.RejectedMeansAll | src/bitcoin/rpc_client.cpp:276-320 | Rejection results exactly when there were answers and every one was a definite rejection |
| Submission.RunKeeps | src/pool/pool.cpp:1199-1266 | Every run of finding, picking, submitting and stopping keeps the queue and credit invariant |
| Submission.NoBlockIsLost | src/pool/pool.cpp:1354-1367 | Until the pool stops a block is queued, in hand, or settled by an endpoint that has it or by definite rejection from all |
| Submission.CreditOncePerHash | src/pool/pool.cpp:1216-1227 | Blocks counted are the distinct hashes won, and the counts by address add up to those won with an address |

## Left out

- Hashes, HMAC, the AEAD, curve operations and the handshake's messages: parameters. The AEAD is assumed to open, at each
  nonce, exactly what the peer sealed there; Act 1 and Act 2 appear by size and outcome only.
- Sockets, event loops, RPC and IPC transport, JSON, YAML, HTTP, metrics, logging, configuration and credential files.
- Clocks: time windows, retry delays and refresh intervals are inputs that may say anything.
- The setup, subscribe, configure and authorize dialogues beyond what publication depends on; worker accounting, hashrate
  windows and statistics.
- The spool directory and the recovery of spooled blocks after a restart.
- JobCache.JobStore.Broadcast: takes a job whose id is not cached, as the ids come from a counter; a job sent twice is
  caught by its signature before.
- Publication.QuietMeansDelivered: a session whose publication throws while being sent is not modelled, so delivery means
  handed to the connection.
- Channels.ReachableSession: whether an open or update passes the rate, address and size checks, and the target that
  follows from a hashrate, are inputs of the action; job ids wrap at 2^32 but the channel counter stops at 65535.
- LiveChannel.Live.ChangeTarget: takes a target within the device maximum, which its callers compute with a minimum.
- SharePipeline.BlocksAllDelivered: an exception thrown by the found-block callback, which would end the delivering loop,
  is not modelled.
- SharePipeline.EveryShareOnce: validation is any function of the share, the issued job, the mask and the clock;
  `ShareValidation` says what it is for each kind. Whether a share is a duplicate is an input here; `ShareLedger` has that.
- WideArithmetic.Divide: takes a quotient that fits 64 bits, as the shift in its loop does.
- Difficulty.ExactRatioToDouble: takes a denominator of at most 267 bits, beyond the 256 a target has; larger ones would
  shift bits out.
- TargetSplit.TargetFromDifficulty: the quotient of the hardware division is an input known to be the nearest double.
- Vardiff.Converges: arithmetic is over the reals, so rounding of the share rate is not modelled.
- Extranonce.SessionsDiffer: the 64-bit session counter does not wrap.
- ShareLedger.OncePerWork: a session is paid to one script, so the coinbase half of a job stays the same; SV2 job ids do
  not come round.
- NoiseConnection.Connection.EstablishTransport: the handshake and the sending of Act 2 are one outcome here; the states in
  between are in `NoiseWire`.
- NoiseSending.SendBytes: the test that the total size fits a machine word is left out, sizes being unbounded; the state of
  the connection is in `NoiseWire`.
- Coinbase and header builders, share validators and work signatures are functions on values: the buffers they append to
  are not modelled as objects.
- How the block reward is split between payout and donation, as a parameter `payouts` of the pool.
- `parse_coinbase_output` and the decision when to publish an empty job on a new block.
