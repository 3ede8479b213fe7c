# Proofs about the Knight Online server and its tools

Dafny models of the parts of the repository that hold real algorithms, and proofs of what
they promise. Each module follows one source file (or one file and its reader) and keeps
that file's form: code that changes a buffer, a cursor or a table step by step is a method
with loop invariants or a class, proved equal to a specification function; the promises are
lemmas about that function. `dafny verify dfyconfig.toml` checks everything.

| module | what it models |
|---|---|
| `Wrappers`, `Bytes`, `Text`, `Sequences`, `Sorting` | the option type; little-endian integers and Rust casts; facts about sequences; Rust string operations; the stable library sort |
| `BlockCipher`, `TblCipher` | the 16-round network of the TBL files, the stream layer, padding, header and length field |
| `TblCodec`, `TblLines`, `TblAppend` | the table codec, the lines to append and the append command |
| `Crc`, `JvCryption` | CRC-32 by table and by bits; the length-keyed packet transform |
| `PacketIo`, `Writer` | frames, the three readers, and the batching writer task |
| `FlowAnalyzer` | windowed template matching in a packet trace |
| `RateLimiter` | packet windows, violations and bans; connections of an address |
| `LuaCalls`, `LuaParser` | the Lua scanner: calls on a line, and the blocks of a script |
| `QuestAnalyzer`, `QuestGenerator`, `QuestFiles`, `QuestReadback` | which quest events lack a handler, the Lua printed for them, the files it is put into, and what the scanner reads there |
| `RegionGrid` | the region grid of a zone and its 3x3 queries |
| `SmdFile`, `SmdLayout` | the map file parser, laid-out files and truncated files |
| `DialogMonitor`, `DialogBuilder` | the search for unmapped buttons; menus, button map and event ids from a trace |

Key schedule and S-boxes of the cipher are parameters (any 16 round keys of 48 bits, any
words of four bytes 0 or 1), and so are the libraries the code calls: AES, the charset
codecs, lower-casing, and the floating-point steps of the map parser. Theorems about them
hold for every choice that meets the stated contract.

## What the proofs found

Several promises hold only under a condition, which is proved to be the exact one.

- **Encrypted tables.** Encrypting and decrypting gives the plaintext back exactly for the
  lengths `LengthSurvives` describes: not for the empty plaintext (`decode_layer1` always
  processes one block, and panics), and from 2^31 bytes on only for those multiples of 8
  whose length, cast to i32, is negative.
- **Table codec.** A well-typed table below 2 GiB can be read back exactly when its rows and
  texts are within the limits of the parser, and comes back unchanged exactly when also every
  string survives the charset libraries.
- **Append.** `handle_append` fails in two ways. It copies the
  input's structure flag when it writes, but reading always expects the new-structure header:
  after any input that is not a ChaosExpansion file the written file is unreadable. And it
  appends a row of an id and a text whatever the columns are: with other columns the file is
  unreadable (three integer columns), or is read, and reported as verified, with other rows
  (two integer columns). The written file reads back as the merged table exactly when the
  input was a ChaosExpansion file, nothing is added or the columns are an id and a text,
  rows and texts are within the limits of the parser, and every string survives the charset
  libraries. Files of 2 GiB or more are not covered. A text that is empty or has white space
  at an end cannot be given to it, because every line is trimmed before it is split.
- **Packet checksum.** A change goes unnoticed exactly when its CRC syndrome is zero. Any
  change within four consecutive bytes is caught; five bytes are not enough to rely on: any
  byte can be changed at any place together with the four after it.
- **Writer.** With AES every schedule delivers the whole queue exactly when every packet that
  is not blocked fits into a frame and is readable. The schedule changes what is written
  exactly when the first packet that does not fit is neither the first nor the last and the
  one after it fits: received on its own such a packet ends the task, drained it is skipped.
  Without AES a packet that does not fit leaves a torn frame on the wire exactly when it is
  drained and not marked plaintext; the reader takes everything before it and stops there.
- **Plaintext frames.** A frame is read back as its packet exactly when it is encrypted, or
  plaintext with an opcode other than 1 and at least one data byte.
- **Rate limits.** No window takes more than the limit. A sliding second can hold twice as
  much, and this bound is reached for every group of packets. After a given run the second from
  `t` on keeps the limit, whatever arrives, exactly when no window reaches over `t` that could
  still take a packet of the group; a quiet second before `t` is enough.
- **Generated quest handlers.** A later run that has anything to add to a file strips the
  block of the earlier run and writes only the new handlers, so the earlier ones are
  forgotten unless the rest of the file handles the same events. Applying the same code
  twice changes white space in front of the block at most; a third time changes nothing.
- **Progress checks.** A printed progress check for a quest with neither monsters nor a known item
  exchange only shows a message: no button leads to the completion handler printed beside it.
  All other buttons lead on to an event somebody handles.
- **Region grid.** The grid is square and sized by the map's width; a user beyond its edge
  on the other axis is in no cell and cannot be seen.
- **Map files.** A truncated file is rejected exactly when the cut comes before the warp
  list; a later cut silently drops warp gates.
- **Dialog scripts.** Menu events are pairwise distinct, but they meet the close event when
  the roots are numbered across 3001, and the action events when they reach 5000. The
  comment in `tools/dialog_builder.py:57` says the ranges avoid collisions; the code does not
  check it.

Integer arithmetic follows release builds (wrapping); a debug build panics where the event
ids of `analyzer.rs` or the sequence counter of `packet_io.rs` overflow.

## Model

| member | source | states |
|---|---|---|
| BlockCipher.FipsSelections | crates/ko-tbl-import/src/decrypt.rs:34-124 | the expansion and permutation constants select valid positions, so the network theorems apply to them |
| BlockCipher.SBoxIndexValue | crates/ko-tbl-import/src/decrypt.rs:125-192 | the S-box index as a number: row from the outer cells, column from the inner four |
| BlockCipher.InitialDecodeSub | crates/ko-tbl-import/src/decrypt.rs:125-192 | the in-place loop of 16 rounds turns any block of bits into the network's value in the direction `p2`, and stays in bounds |
| BlockCipher.RoundUndone | crates/ko-tbl-import/src/decrypt.rs:125-192 | one round, applied to its own swapped result, restores the swapped argument, whatever the round function |
| BlockCipher.NetworkInverse | crates/ko-tbl-import/src/decrypt.rs:125-192 | for every key order the network with the reversed order is its inverse |
| BlockCipher.DirectionsInverse | crates/ko-tbl-import/src/decrypt.rs:125-192 | `p2 = 0` undoes `p2 = 1` and the reverse, for every block, key schedule and S-boxes |
| TblCipher.DecodeLayer1 | crates/ko-tbl-import/src/decrypt.rs:203-272 | decodes the blocks after the 20-byte header in place; fails exactly for an empty body or a last block that is not whole |
| TblCipher.EncodeLayer1 | crates/ko-tbl-import/src/decrypt.rs:381-427 | pads with zeros and encodes block by block into a second buffer, equal to the network on every padded block |
| TblCipher.ByteCellsValue | crates/ko-tbl-import/src/decrypt.rs:203-272 | the cells of a byte are its binary digits, highest first |
| TblCipher.DecodeEncodeBlocks | crates/ko-tbl-import/src/decrypt.rs:203-272 | block-wise decoding in place undoes the block-wise encoder |
| TblCipher.DecodeStream | crates/ko-tbl-import/src/decrypt.rs:275-314 | the in-place stream decoders, both key updates, equal the stream function |
| TblCipher.EncodeStream | crates/ko-tbl-import/src/decrypt.rs:367-379 | the in-place stream encoder equals the inverse stream function |
| TblCipher.StreamRoundTrip | crates/ko-tbl-import/src/decrypt.rs:275-379 | decoding undoes encoding although key bytes come from the ciphertext |
| TblCipher.StreamPrefix | crates/ko-tbl-import/src/decrypt.rs:275-287 | a decoded byte depends only on the ciphertext up to it, so padding cannot disturb the text |
| TblCipher.KeyByteIsHigh | crates/ko-tbl-import/src/decrypt.rs:275-287 | the key byte of the stream is the high half of the 16-bit key |
| TblCipher.LengthFieldValue | crates/ko-tbl-import/src/decrypt.rs:430-436 | the length field carries the length as i32, sign-extended to usize, and nothing more |
| TblCipher.DetectEncryption | crates/ko-tbl-import/src/decrypt.rs:316-342 | classifies a file by its header and length, for every input |
| TblCipher.DecryptTbl | crates/ko-tbl-import/src/decrypt.rs:344-365 | equals the composed decryption, including the failing inputs |
| TblCipher.EncryptTbl | crates/ko-tbl-import/src/decrypt.rs:430-457 | equals header, length field, layers and padding composed |
| TblCipher.DecryptedEncrypted | crates/ko-tbl-import/src/decrypt.rs:344-457 | what decryption makes of any encrypted plaintext, before the length field is understood |
| TblCipher.RoundTripExactly | crates/ko-tbl-import/src/decrypt.rs:344-457 | the plaintext comes back, flagged as new structure, if and only if its length survives the length field |
| TblCipher.RoundTrip | crates/ko-tbl-import/src/decrypt.rs:344-457 | every non-empty plaintext below 2 GiB comes back |
| TblCipher.StandartRead | crates/ko-tbl-import/src/decrypt.rs:300-365 | a table with fewer than 500 columns under the older stream cipher is recognised and decrypted |
| TblCipher.PlainRead | crates/ko-tbl-import/src/decrypt.rs:316-365 | a plain table is taken as it is, unless decrypting it would give a plausible table too |
| TblCodec.SerializeTbl | crates/ko-tbl-import/src/parser.rs:175-239 | the growing buffer ends as the specified bytes of header, types, rows and cells |
| TblCodec.ParseTbl | crates/ko-tbl-import/src/parser.rs:245-347 | the moving cursor computes the specified parse, with every error case |
| TblCodec.FixedRoundTrip | crates/ko-tbl-import/src/parser.rs:112-239 | every fixed-width value, negative ones and float bit patterns included, comes back from its bytes |
| TblCodec.ParsedTyped | crates/ko-tbl-import/src/parser.rs:245-347 | whatever is parsed has 1 to 1000 columns, at most 10 million rows, and rows that follow the columns |
| TblCodec.ReadableExactly | crates/ko-tbl-import/src/parser.rs:175-347 | a well-typed table below 2 GiB parses if and only if its rows and texts are within the parser's limits |
| TblCodec.RoundTripReread | crates/ko-tbl-import/src/parser.rs:175-347 | a storable table, whatever follows it, reads back with only its strings re-encoded |
| TblCodec.RoundTripExactly | crates/ko-tbl-import/src/parser.rs:175-347 | the table comes back unchanged if and only if every string survives the charset libraries |
| TblCodec.AsciiRoundTrip | crates/ko-tbl-import/src/parser.rs:175-347 | tables of 7-bit text come back unchanged |
| Sorting.StableSortCorrect | crates/ko-tbl-import/src/main.rs:230-237 | the sort used by the append command and the quest tools sorts, permutes, and keeps the order of equal elements |
| TblLines.EntryText | crates/ko-tbl-import/src/main.rs:188-206 | the text of every entry read from a line is trimmed and never empty |
| TblLines.LineKinds | crates/ko-tbl-import/src/main.rs:188-206 | exactly which lines are ignored, skipped, or stop the run for their id |
| TblLines.EntryReadExactly | crates/ko-tbl-import/src/main.rs:188-206 | a line of an id, a tab and a text gives that id and text if and only if the text is trimmed and not empty |
| TblLines.FileRead | crates/ko-tbl-import/src/main.rs:184-206 | a file written from such entries is read as those entries, in order |
| TblAppend.MergeLines | crates/ko-tbl-import/src/main.rs:180-217 | the loop classifies each line and adds those with new ids and fails on an id that does not parse |
| TblAppend.AddedIdsNew | crates/ko-tbl-import/src/main.rs:180-217 | no added id was there before, and none is added twice |
| TblAppend.AddedExactly | crates/ko-tbl-import/src/main.rs:180-217 | an added row is the first line with its id, and no line's id is left out |
| TblAppend.HandleAppend | crates/ko-tbl-import/src/main.rs:160-262 | load, merge, sort, write and verify, with every failing outcome |
| TblAppend.WrittenReadsBack | crates/ko-tbl-import/src/main.rs:160-262 | a table encrypted with the header reads back with only its strings re-encoded |
| TblAppend.HeaderlessUnreadable | crates/ko-tbl-import/src/main.rs:160-262 | a table written without the header is always rejected for its column count when read |
| TblAppend.VerifiesExactly | crates/ko-tbl-import/src/main.rs:160-262 | the file reads back as the merged table with its strings re-encoded if and only if the input was a ChaosExpansion file and the lines can be appended: nothing new, or columns of an id and a text, within the limits; after other input it never reads back |
| TblAppend.AppendExactly | crates/ko-tbl-import/src/main.rs:160-262 | the final verification reads exactly the merged table if and only if, besides, every string of the old and the new rows survives the charset libraries |
| TblAppend.AppendReadsBack | crates/ko-tbl-import/src/main.rs:160-262 | for a ChaosExpansion file of 7-bit text within the limits: the merged table is read back if and only if nothing is added or the columns are an id and a text; it has the old rows plus the rows of new ids, as a multiset, with ascending ids, and stable |
| TblAppend.OtherColumnsFail | crates/ko-tbl-import/src/main.rs:204-210 | a line appended to a readable file of three integer columns makes it unreadable; with two, the verification succeeds on a table that was not merged |
| Crc.LookupIsEightShifts | crates/ko-protocol/src/crypto.rs:22-45 | one table lookup equals eight steps of the bitwise register, for every state and byte |
| Crc.BuildTable | crates/ko-protocol/src/crypto.rs:27-45 | the constant initialiser fills all 256 entries with eight shifts of the index |
| Crc.Crc32WithStart | crates/ko-protocol/src/crypto.rs:189-195 | the table loop equals the bitwise register over all bits, for every string and start value |
| Crc.ResidueTest | crates/ko-protocol/src/crypto.rs:139-161 | comparing a stored checksum is the same as the register over data and checksum ending at zero |
| Crc.BurstDetected | crates/ko-protocol/src/crypto.rs:189-195 | changes inside 32 consecutive bits always change the checksum |
| Crc.GeneratorUndetected | crates/ko-protocol/src/crypto.rs:189-195 | flipping the generator's 33 bits anywhere never does |
| Crc.RegisterLinear | crates/ko-protocol/src/crypto.rs:189-195 | the register is linear in state and input |
| JvCryption.KeysAgreeExactly | crates/ko-protocol/src/crypto.rs:84-94 | after the key exchange an end with the same public key accepts and recovers what the other protects; with another key it accepts if and only if the repeated difference of the working keys has syndrome zero |
| JvCryption.JvCryption.Transform | crates/ko-protocol/src/crypto.rs:113-137 | the loop rewrites the buffer to the specified transform in place |
| JvCryption.JvCryption.DecryptWithCrc32 | crates/ko-protocol/src/crypto.rs:139-161 | decrypts in place and returns the payload length exactly when the buffer is accepted |
| JvCryption.JvCryption.EncryptWithCrc32 | crates/ko-protocol/src/crypto.rs:163-167 | replaces the buffer by the protected one |
| JvCryption.MaskByte | crates/ko-protocol/src/crypto.rs:113-137 | the mask of each byte in numbers: second byte of the rolling key, byte of the working key, length times 157 |
| JvCryption.KeyBytesValue | crates/ko-protocol/src/crypto.rs:113-137 | the bytes of the working key by their place values |
| JvCryption.TransformInvolution | crates/ko-protocol/src/crypto.rs:123-137 | the transform is its own inverse for every key and buffer |
| JvCryption.DifferencePreserved | crates/ko-protocol/src/crypto.rs:123-137 | at equal length the difference of two buffers survives the transform |
| JvCryption.ProtectedAccepted | crates/ko-protocol/src/crypto.rs:139-167 | a protected buffer is accepted and decrypts to its payload and checksum |
| JvCryption.ChangeAcceptedExactly | crates/ko-protocol/src/crypto.rs:139-167 | a changed buffer is accepted if and only if the syndrome of the change is zero |
| JvCryption.BurstRejected | crates/ko-protocol/src/crypto.rs:139-167 | any change confined to 32 consecutive bits of an accepted buffer is rejected |
| JvCryption.FourBytesRejected | crates/ko-protocol/src/crypto.rs:139-167 | any change within four consecutive bytes, payload or checksum or both, is rejected |
| JvCryption.FiveBytesUndetected | crates/ko-protocol/src/crypto.rs:139-167 | for any byte and any place there is a five-byte change that is accepted |
| PacketIo.ReadFrameAt | crates/ko-game/src/packet_io.rs:33-75 | the cursor reads of the readers equal the frame specification, error for error |
| PacketIo.FrameRoundTrip | crates/ko-game/src/packet_io.rs:33-75 | a frame in front of anything is read back, or rejected for its length if too short |
| PacketIo.FrameBytes | crates/ko-game/src/packet_io.rs:33-75 | the bytes of a frame: marks, length with the low byte first, payload, marks |
| PacketIo.PlainFrameRead | crates/ko-game/src/packet_io.rs:33-101 | before the key exchange a frame is read as opcode and data and no number is counted |
| PacketIo.Connection.ReadPacket | crates/ko-game/src/packet_io.rs:33-101 | one read with its checksum, length and sequence checks, and the new counter and position |
| PacketIo.ClientFrameRead | crates/ko-game/src/packet_io.rs:33-101 | a client frame with the next number is read back exactly |
| PacketIo.ClientRefusedExactly | crates/ko-game/src/packet_io.rs:33-101 | a client frame is refused exactly for its checksum, its length, or its number, and with which error |
| PacketIo.DamagedFrameRefused | crates/ko-game/src/packet_io.rs:33-101 | a client frame damaged within four consecutive bytes of its payload is always refused |
| PacketIo.RunNumbers | crates/ko-game/src/packet_io.rs:33-101 | whatever arrives, accepted packets are numbered consecutively, by the numbers inside their payloads |
| PacketIo.NoReplay | crates/ko-game/src/packet_io.rs:33-101 | in a run of fewer than 2^32 packets no payload is accepted twice |
| PacketIo.HonestRun | crates/ko-game/src/packet_io.rs:33-101 | everything an honest client sends is accepted, in order |
| PacketIo.ReadPacketAes | crates/ko-game/src/packet_io.rs:260-339 | the AES reader, with and without the sequence byte, error for error |
| PacketIo.SequencedFrameRead | crates/ko-game/src/packet_io.rs:260-339 | a frame with a sequence byte, as game clients send it, is read back as its packet whatever that byte is |
| PacketIo.SequencedRun | crates/ko-game/src/packet_io.rs:260-339 | a whole run of such frames is read back in order with nothing left |
| PacketIo.AesRefusedExactly | crates/ko-game/src/packet_io.rs:260-339 | exactly which whole frames are refused, with which error, with and without the sequence byte |
| Writer.Batch.BuildFrame | crates/ko-game/src/writer.rs:166-268 | what each branch appends to the shared buffer, the length patched in place, and what a failure leaves behind |
| Writer.WriterLoop | crates/ko-game/src/writer.rs:31-164 | receive, drain, write: the bytes written for any schedule of arrivals |
| Writer.WrittenIsFrames | crates/ko-game/src/writer.rs:31-164 | with AES the wire is always whole frames of the packets sent, in order |
| Writer.FrameReadExactly | crates/ko-game/src/packet_io.rs:260-339 | a frame is read back as its packet if and only if the packet is readable |
| Writer.DeliverableExactly | crates/ko-game/src/writer.rs:31-164 | opcodes 0xE9 and 0xC7 are never delivered, and every other packet as often as it was queued |
| Writer.BatchingInvisible | crates/ko-game/src/writer.rs:31-164 | with AES, repeated reads give exactly the queue without blocked opcodes under every schedule, if and only if every packet of it fits and is readable |
| Writer.ScheduleMattersExactly | crates/ko-game/src/writer.rs:50-146 | with AES, all schedules write the same if and only if all packets fit, or the first that does not is the first or the last, or the one after it does not fit either; without draining, the wire ends before the first that does not fit |
| Writer.TornFrame | crates/ko-game/src/writer.rs:166-220 | without AES, plain or JvCryption, under any schedule: the reader takes the whole wire if and only if no packet that does not fit and is not plaintext is drained; otherwise it takes exactly the frames before that one and stops with a length error |
| Writer.PayloadDecrypts | crates/ko-game/src/writer.rs:166-268 | decrypting a written payload gives magic, 16-bit counter, zero, opcode and data; unencrypted it is opcode and data |
| Writer.WholeExactly | crates/ko-game/src/writer.rs:50-146 | without AES, every schedule leaves whole frames if and only if the schedule that drains all it can does |
| FlowAnalyzer.ScanFrom | tools/flow_analyzer.py:103-122 | the inner scan finds a windowed occurrence if there is one, ending as early as any can |
| FlowAnalyzer.FindFlows | tools/flow_analyzer.py:85-129 | the result is a family of ordered, disjoint windowed occurrences, and no disjoint family is larger; an empty template fails on the first packet |
| FlowAnalyzer.NoneLarger | tools/flow_analyzer.py:103-129 | the exchange argument: a family that starts after the point reached cannot be larger than what is left |
| RateLimiter.SessionRateState.MaybeResetWindow | crates/ko-game/src/rate_limiter.rs:145-152 | a window of a full second or more is replaced by a fresh one, otherwise nothing changes |
| RateLimiter.SessionRateState.RecordViolation | crates/ko-game/src/rate_limiter.rs:155-163 | counts, and bans for five minutes at the third |
| RateLimiter.SessionRateState.IsBanned | crates/ko-game/src/rate_limiter.rs:166-179 | an expired ban is lifted together with its violations |
| RateLimiter.RateLimiter.CheckRateLimit | crates/ko-game/src/rate_limiter.rs:264-347 | verdict and new state for every packet; game masters and unknown sessions pass; other sessions are untouched |
| RateLimiter.RateLimiter.RegisterSession | crates/ko-game/src/rate_limiter.rs:244-246 | a fresh state for the session and no other change |
| RateLimiter.RateLimiter.RegisterConnection | crates/ko-game/src/rate_limiter.rs:212-231 | admits below the maximum and otherwise leaves the count as it was |
| RateLimiter.RateLimiter.UnregisterConnection | crates/ko-game/src/rate_limiter.rs:238-241 | one connection less, and no entry when none is left |
| RateLimiter.SlidingSecondBound | crates/ko-game/src/rate_limiter.rs:264-347 | in every run every half-open second holds at most twice the limit of accepted packets, for all packets and for every counter group |
| RateLimiter.TwoHundredAndTen | crates/ko-game/src/rate_limiter.rs:264-347 | at most 200 packets and 10 of the chat group in any second |
| RateLimiter.VerdictsByCounting | crates/ko-game/src/rate_limiter.rs:264-347 | every verdict of every run by counting packets and in literal numbers: bans after each third violation, disconnects beyond 300, refusals beyond 100 and beyond the limit of the opcode, and nothing else |
| RateLimiter.BoundIsReached | crates/ko-game/src/rate_limiter.rs:145-152 | two bursts around a window boundary put twice the limit within two nanoseconds, for every group: 200 packets, 10 of the chat group |
| RateLimiter.WindowBound | crates/ko-game/src/rate_limiter.rs:145-152 | in every run no window takes more accepted packets of a group than its limit |
| RateLimiter.LimitHoldsExactly | crates/ko-game/src/rate_limiter.rs:264-347 | after any run before `t`, the second from `t` on keeps the limit whatever arrives, if and only if no window reaches over `t` that could still take a packet of the group |
| RateLimiter.QuietSecond | crates/ko-game/src/rate_limiter.rs:264-347 | a second after one without packets keeps the limit |
| RateLimiter.ViolationsAccounted | crates/ko-game/src/rate_limiter.rs:155-179 | violations ever recorded are three for each expired ban plus the current count, which is three exactly during a ban |
| RateLimiter.BanHolds | crates/ko-game/src/rate_limiter.rs:166-179 | until a ban ends every packet gets the ban verdict; the first one after is judged as if there had been none |
| RateLimiter.ThirdViolationBans | crates/ko-game/src/rate_limiter.rs:155-163 | after a third violation nothing is accepted for 300 seconds |
| RateLimiter.ConnectionsBounded | crates/ko-game/src/rate_limiter.rs:212-241 | in every run the counts are the open connections, at most five an address, without stale entries |
| RateLimiter.AdmittedExactly | crates/ko-game/src/rate_limiter.rs:212-231 | a connection is admitted if and only if fewer than five are open |
| LuaParser.ParseLua | crates/ko-quest-audit/src/lua_parser.rs:130-281 | the block scanner returns the events some line opens, and for each the extent of its last block and the messages, exchanges and saves in it |
| LuaParser.HeaderParsed | crates/ko-quest-audit/src/lua_parser.rs:300-336 | the line the generator prints for an event opens that event, for every i32 |
| LuaParser.OpeningParsed | crates/ko-quest-audit/src/lua_parser.rs:300-336 | `if` and `elseif` lines, with and without parentheses, open their event, for every i32 |
| LuaCalls.CallRead | crates/ko-quest-audit/src/lua_parser.rs:371-470 | a written call is read back with its arguments, behind anything its name cannot start in |
| QuestAnalyzer.BuildQuestChains | crates/ko-quest-gen/src/analyzer.rs:122-151 | the grouping loop and the sorts give the chains of the rows |
| QuestAnalyzer.ChainsPartition | crates/ko-quest-gen/src/analyzer.rs:122-151 | every quest row is in a chain; a chain has exactly the rows of its NPC and quest, by ascending status and index, and the file of its first row |
| QuestAnalyzer.ChainsAscend | crates/ko-quest-gen/src/analyzer.rs:122-151 | chains come by strictly ascending NPC and quest |
| QuestAnalyzer.AnalyzeChain | crates/ko-quest-gen/src/analyzer.rs:154-384 | the branches of the loop give what each row asks for, in order |
| QuestAnalyzer.FindMissingDispatch | crates/ko-quest-gen/src/analyzer.rs:387-446 | the first dispatch row of each file and trigger, unless the file is absent or handles it |
| QuestAnalyzer.FindMissingHandlers | crates/ko-quest-gen/src/analyzer.rs:81-119 | all chains whose file is there, then the dispatch rows |
| QuestAnalyzer.MissingIsNew | crates/ko-quest-gen/src/analyzer.rs:81-119 | nothing returned was handled already, and everything returned belongs to a file there is |
| QuestAnalyzer.CoveredMeansDone | crates/ko-quest-gen/src/analyzer.rs:81-119 | once every returned event is handled, a second analysis returns nothing, whatever else the files have gained |
| QuestAnalyzer.OneStepClosure | crates/ko-quest-gen/src/analyzer.rs:81-119 | adding what the analysis returns makes it return nothing |
| QuestAnalyzer.MissingExactly | crates/ko-quest-gen/src/analyzer.rs:81-446 | it returns nothing if and only if every trigger that needs a handler, every completion and every dispatch trigger has one |
| QuestAnalyzer.HandlersExactly | crates/ko-quest-gen/src/analyzer.rs:81-446 | a handler is returned if and only if a row calls for it, for each of the ten kinds, with every field: events, texts, exchange, and the save index of the first row of the first status there is |
| QuestAnalyzer.ButtonsLeadOn | crates/ko-quest-gen/src/analyzer.rs:154-384 | every event a returned handler leads to is handled in its file, is a trigger of its quest, or is the event of another handler returned for the file |
| QuestGenerator.GenerateBlock | crates/ko-quest-gen/src/generator.rs:206-235 | banner, then the handlers sorted by event and without repeated events |
| QuestGenerator.GenerateAll | crates/ko-quest-gen/src/generator.rs:198-241 | one block for each file named, from that file's handlers |
| QuestGenerator.BlockOpens | crates/ko-quest-gen/src/generator.rs:12-195 | the generated text, read line by line, opens the kept events in order and nothing else, for all handler types |
| QuestGenerator.OneHandlerPerEvent | crates/ko-quest-gen/src/generator.rs:222-233 | the kept events are those asked for, ascending, and each has the handler that was asked for first |
| QuestFiles.StripAutogenBlock | crates/ko-quest-gen/src/generator.rs:301-333 | the three ways of stripping an earlier block |
| QuestFiles.ApplyGenerated | crates/ko-quest-gen/src/generator.rs:245-290 | which files change and to what, and how many; files that are not there are skipped |
| QuestFiles.ApplyKeys | crates/ko-quest-gen/src/generator.rs:270-286 | for any content the result handles what stripping left and exactly the generated events |
| QuestFiles.StripNoMarker | crates/ko-quest-gen/src/generator.rs:301-333 | no block start survives stripping, in any of the three ways |
| QuestFiles.StripKeeps | crates/ko-quest-gen/src/generator.rs:301-333 | without a title a file is left alone; before the usual rule and title everything is kept but white space at the end |
| QuestFiles.StripKeepsLines | crates/ko-quest-gen/src/generator.rs:306-329 | with the title under another rule the lines before it are kept, but for rules and then empty lines at their end |
| QuestFiles.FirstApplication | crates/ko-quest-gen/src/generator.rs:270-286 | a block put into a file that has none stands behind the whole old text, and old events and generated ones are handled |
| QuestFiles.StripApplied | crates/ko-quest-gen/src/generator.rs:270-333 | stripping an applied block brings back the stripped content, less white space at its end |
| QuestFiles.SecondReplaces | crates/ko-quest-gen/src/generator.rs:270-333 | a second block replaces the first, whatever the two are |
| QuestFiles.ThirdChangesNothing | crates/ko-quest-gen/src/generator.rs:270-333 | applying a block after any block, and once more, changes nothing |
| QuestFiles.SecondExactly | crates/ko-quest-gen/src/generator.rs:270-333 | applying the same block twice is applying it once if and only if the text before it ended in one line feed and no other white space |
| QuestFiles.SecondForgets | crates/ko-quest-gen/src/generator.rs:270-333 | after a second block the file handles its own events and the second block's, not the first's |
| QuestFiles.SecondRunExactly | crates/ko-quest-gen/src/main.rs:144-195 | a second run finds nothing if and only if the files as the first will leave them, which is known before it, cover every chain and every dispatch row |
| QuestFiles.RerunKeepsExactly | crates/ko-quest-gen/src/main.rs:144-195 | a later run that adds to a file keeps all its events handled if and only if the file's own text handles those of the earlier block |
| QuestReadback.BodyRead | crates/ko-quest-gen/src/generator.rs:27-190 | each line printed for a handler, read by the scanner's own readers, says what a handler of its type should, in order and in its branch |
| QuestReadback.HandlersReadBack | crates/ko-quest-gen/src/generator.rs:12-286 | in any file the block is put into, the scanner finds for each generated event exactly those statements, up to the `end`, and keeps exactly their calls |
| QuestReadback.HandlerCalls | crates/ko-quest-gen/src/generator.rs:27-190 | the calls kept of a handler: the save index, the exchange if positive, and buttons that lead to exactly its accept, complete and incomplete events |
| QuestReadback.PrintedButtonsLeadOn | crates/ko-quest-gen/src/analyzer.rs:81-446 | every button of a printed handler that leads anywhere leads to an event that is handled, a trigger of the quest, or printed too |
| RegionGrid.ZoneState.constructor | crates/ko-game/src/zone.rs:350-380 | an empty square grid of the size the map gives |
| RegionGrid.ZoneState.AddUser | crates/ko-game/src/zone.rs:546-558 | adds to one cell; out of the grid nothing happens |
| RegionGrid.ZoneState.RemoveUser | crates/ko-game/src/zone.rs:561-565 | removes from one cell; out of the grid nothing happens |
| RegionGrid.ZoneState.GetUsersIn3x3 | crates/ko-game/src/zone.rs:582-598 | the nested scan returns the users of the nine cells, with i16 wrap-around, as a multiset |
| RegionGrid.ZoneState.Region3x3HasUsers | crates/ko-game/src/zone.rs:606-621 | true if and only if that query would return somebody |
| RegionGrid.AroundExactly | crates/ko-game/src/zone.rs:582-598 | the query returns each user in or beside the region exactly once and nobody else |
| RegionGrid.NearbyUsers | crates/ko-game/src/zone.rs:345-361 | after any run: everyone on the map within 48 units on both axes once, of those on the map only such as are within 96, and nobody who left |
| RegionGrid.BoundsAreTight | crates/ko-game/src/zone.rs:345-347 | neither 48 nor 96 can be improved |
| RegionGrid.SeenAtOwnPlaceExactly | crates/ko-game/src/zone.rs:384-397 | a user is found at its own place if and only if both coordinates lie below the edge of the grid |
| SmdFile.SkipCollisionData | crates/ko-protocol/src/smd.rs:235-282 | the cursor passes faces and nested cells as specified, or fails at the same place |
| SmdFile.ReadWarpList | crates/ko-protocol/src/smd.rs:306-357 | the records with an id other than 0, up to the count or the end of the file |
| SmdFile.Parse | crates/ko-protocol/src/smd.rs:89-194 | the cursor walks all sections as specified, error for error |
| SmdFile.Mandatory | crates/ko-protocol/src/smd.rs:89-190 | an accepted file has a map size from 1 to 10000 and a full tile grid |
| SmdLayout.SectionsFound | crates/ko-protocol/src/smd.rs:89-190 | in a file laid out as documented the parser lands exactly behind every skipped section, and refuses the file if and only if its dimensions contradict each other |
| SmdLayout.ParseLaidOut | crates/ko-protocol/src/smd.rs:89-194 | such a file is parsed to what it holds, whatever follows it, or refused for its dimensions |
| SmdLayout.EventIdsRecovered | crates/ko-protocol/src/smd.rs:206-211 | the event of a tile is the one stored for its row and column, and -1 off the map |
| SmdLayout.TruncationExactly | crates/ko-protocol/src/smd.rs:89-357 | a prefix of an accepted file is rejected if and only if it ends before the warp list; otherwise only warp gates at the end are lost |
| DialogMonitor.BuildTree | tools/dialog_monitor.py:118-132 | children in the order of the button map, for every menu; fails exactly on a link from an unknown menu |
| DialogMonitor.TreeLinks | tools/dialog_monitor.py:118-132 | a menu has a child if and only if the button map has an entry from it to a known menu, with that button and its text |
| DialogMonitor.HasUnknownBelow | tools/dialog_monitor.py:135-152 | the search with a shared visited set ends on cyclic graphs and keeps the visited menus closed |
| DialogMonitor.HasUnknown | tools/dialog_monitor.py:135-152 | called afresh it answers true if and only if a menu with an unmapped button is reachable |
| DialogBuilder.FindResponse | tools/dialog_builder.py:291-324 | the forward scan of at most 30 events |
| DialogBuilder.BuildNpcData | tools/dialog_builder.py:241-288 | the loop over the trace: menus, clicks, roots and the active menu of every script |
| DialogBuilder.ClicksExactly | tools/dialog_builder.py:241-324 | the clicks kept of a script are its clicks in the trace made after a menu of it was shown, one to one and in order, each with its button, the menu last shown or reached, and the answer among the next 29 events that settles it |
| DialogBuilder.MenusExactly | tools/dialog_builder.py:241-288 | the menus kept are those shown last with their signature, and the roots the first of their signature to follow the start of a dialog |
| DialogBuilder.GraphIsClosed | tools/dialog_builder.py:241-324 | the menus kept are exactly those shown, once each; roots, click parents and menu targets are among them |
| DialogBuilder.MapButtons | tools/dialog_builder.py:335-362 | the priority merge of the clicks |
| DialogBuilder.ButtonMapExactly | tools/dialog_builder.py:335-362 | a button is mapped if and only if it was clicked, to what the first click of highest priority says |
| DialogBuilder.ButtonMapByKind | tools/dialog_builder.py:335-362 | a clicked button is mapped to the first menu it opened, else to its first service, else it closes the dialog |
| DialogBuilder.AssignEventIds | tools/dialog_builder.py:459-473 | roots first, then the other menus, ascending, past the close event |
| DialogBuilder.MenuButtonsLeadHome | tools/dialog_builder.py:530-535 | every button mapped to a menu is printed with the number of that menu, which no other menu has |
| DialogBuilder.EachNumberedOnce | tools/dialog_builder.py:459-473 | every menu of a script, and nothing else, is numbered once, in ascending order: roots from the trigger on, no other menu with the close event |
| DialogBuilder.NoClashExactly | tools/dialog_builder.py:459-490 | the handlers printed for a script, in any trace, have distinct events if and only if no root gets the close event and menus stay clear of actions |

## Left out

- Key schedule and S-box constants: the cipher theorems hold for any, so the tables are not copied.
- AES-128-CBC, EUC-KR, Windows-1254 and LZF: library code; AES appears by its contract, and padding by section 6.3 of RFC 5652.
- `next_sequence`, `current_sequence`, key generation and the client's decoding of the JvCryption branch of `build_frame`: counters and randomness, and a reader that is not in the repository.
- `read_packet_jv_aes` and the `send_packet` variants: the same frames again, in a different order of layers.
- Packet flow over sockets, channels and tasks: streams are byte sequences, the writer's queue is a sequence with an arbitrary schedule of arrivals.
- Atomic counters and map locks of the rate limiter: every call is one step, as the entry locks make it.
- Columns, prices and text of quest rows that no branch reads, and parsing of the pipe-delimited dump.
- LuaParser.ParseLua: items given and taken, NPC messages, slot, weight and search flags of a block, and the list of referenced events are not modelled.
- `generate_handler` is modelled as the list of lines it writes, and the comment in front of a handler is not read back; `dry_run` only prints.
- `count_handlers`: a count that is only printed.
- Files without the `.lua` extension in the quest directory: the model's directory holds the scripts.
- NPCs in the region grid: the same code as for users.
- Rounding of 32-bit floats in zone positions: positions are real numbers, truncated as the cast does.
- Floating-point steps of the map parser (cells that cover a dimension, the width check): parameters of the model.
- Names, announcements and prices of warp gates: single fields of a record that the model keeps whole.
- The second half of `analyze_npc`: inference by button text and counting; `render` and the database lookups of the dialog tools.
- The text of a dialog script: only the events of its handlers and buttons are modelled.
- PacketIo.NoReplay: says nothing beyond 2^32 packets, where the counter wraps around and numbers repeat.
