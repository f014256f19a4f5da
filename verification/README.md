# ALOE++: verified models of the runtime protocols and the LTE bit-level chains

ALOE++ is a time-slotted software-radio runtime in C with a library of LTE
signal-processing modules. This project models its hardest parts in Dafny and
proves what they promise. `dafny verify dfyconfig.toml` checks all of it.

| files | what they model |
|---|---|
| `Barrier.dfy`, `TimeSlots.dfy`, `SlotProgress.dfy` | the reusable barrier and the lock-step protocol between the kernel thread and any number of pipeline threads, as transition systems with explicit mutexes and wait sets, for every interleaving and with spurious wake-ups |
| `PipelineList.dfy` | the linked process list of a pipeline, on the heap, and the time slot that walks along it |
| `SpscQueue.dfy`, `SpscCalls.dfy`, `SpscInterface.dfy` | the wait-free packet queue: every shared-memory access as a step of its own, what the calls of a schedule publish and deliver, and the calls as methods of an object |
| `SpuMemcpy.dfy` | the unaligned copy made of aligned 16-byte loads, shuffles and stores |
| `RateMatching.dfy`, `RateMatcher.dfy`, `RateOrder.dfy` | LTE control rate matching and its inverse in the receiver: what the positions mean, the loops, and the order of the symbols with the source's own tables |
| `Crc.dfy`, `CrcDivision.dfy` | the chunked CRC against bit-serial polynomial division, and the remainder by multiplication |
| `ConvCode.dfy`, `Trellis.dfy`, `Viterbi.dfy`, `ViterbiRules.dfy`, `ViterbiStart.dfy`, `ViterbiDecoder.dfy` | the convolutional encoder, its trellis, the Viterbi decoder, the choices it makes, and when its traceback can start |
| `Demapper.dfy`, `DemapperTables.dfy`, `DemapperLoops.dfy` | soft and hard demapping of BPSK, QPSK, 16QAM and 64QAM |
| `GoldSequence.dfy` | the pseudo-random sequence generator |
| `BlockAdapter.dfy`, `RtLog.dfy`, `RingBytes.dfy` | two byte stores that wrap around |
| `Arith.dfy`, `Wrappers.dfy` | shared arithmetic and the option type |

Loops and state changes of the source are methods on arrays and classes. Each is
proved equal to a specification function or relation, and the main results are
lemmas about those. Concurrent code is a state machine with one step per shared
access, and the results hold for all its runs.

## Where the code differs from what it promises

The model follows the code. Each departure has a lemma at an input and the
condition under which the code does meet the promise.

- `pipeline_add` documents that it returns the position of the new process. It
  returns the position of the predecessor, except for a new head
  (`PipelineList.Pipeline.Add`, both directions; `PipelineList.InsertBehindHead`
  is an input).
- `pipeline_add` documents insertion at min(n, exec_position). The list is
  sorted by `exec_position`; the two places agree exactly if the processes around
  the documented place have the new one between them
  (`PipelineList.DocumentedPlaceIff`, and `PipelineList.DocumentedPlaceMissed` for
  an input).
- `pipeline_add` takes a process that is in the list already. It is then counted
  twice, and the chain is cut short or closed into a loop at it
  (`PipelineList.Pipeline.Add` says which; `PipelineList.AddTwice` is an input).
- `rtdal_lnx/include/rtdal.h` says that after a failing process the thread
  continues with the next one. Taking the process out of the list clears its
  `next`, so the slot ends there (`PipelineList.RunsAllIff`, and
  `PipelineList.SecondNotRun` for an input).
- The Gold sequence claims to follow section 7.2 of 3GPP TS 36.211, which feeds
  the second register back from places 3, 2, 1 and 0. The code leaves place 1
  out. Over 62 bits or more it gives the standard's sequence exactly for seeds
  whose low 31 bits are zero (`GoldSequence.StandardIffZero`;
  `GoldSequence.SeedTwoDiffers` for an input).
- The CRC detects all bursts within 16 positions exactly for polynomials with a
  constant term (`Crc.BurstsDetectedIffOdd`; `Crc.MissedBurst` for an input).
- `viterbi_decode` indexes its traceback at -1 when every final metric reaches
  1000000 (`ViterbiDecoder.Decode`, both directions; `ViterbiStart.NoStart` for an
  input). A caller can rule this out by the magnitudes of the soft bits
  (`ViterbiStart.ModerateInputStarts`), and it never happens on sign-correct input
  (`ViterbiStart.FaithfulStarts`).
- `viterbi_decode` gives out more than N_d_bits/rate bits when its search records
  more than one minimum. `ViterbiDecoder.Decode` gives the number,
  `ViterbiStart.SingleRecordIff` says when there is no surplus, and
  `ViterbiStart.SurplusBit` is an input; the surplus bits are zeros.

## Model

| member | source | states |
|---|---|---|
| `Barrier.StepInv` | rtdal_lnx/src/barrier.c:89-143 | every step of every thread inside `barrier_wait`, spurious wake-ups included, keeps the invariant that ties the counter, the one-bit cycle, the mutex and each thread's round together |
| `Barrier.NobodyLeavesEarly` | rtdal_lnx/src/barrier.c:89-143 | in every run, no thread has returned from round r before all threads have been counted in for round r |
| `Barrier.OneBitIsEnough` | rtdal_lnx/src/barrier.c:100-132 | a waiter's saved cycle differs from the current one exactly if its round is over, and the cycle never gets two flips ahead of a waiter |
| `Barrier.OneSerialThreadPerRound` | rtdal_lnx/src/barrier.c:108-142 | in each completed round exactly one thread returns -1 and all others return 0 |
| `TimeSlots.StepInv` | rtdal_lnx/src/rtdal_kernel_thread.c:106-149 | every step of the composed kernel, pipelines and barrier keeps the protocol's invariant |
| `TimeSlots.LockStep` | rtdal_lnx/src/pipeline.c:190-222 | in every run with any number of pipelines, each pipeline has run exactly the slots 1, 2, 3, ... in order, each once, and is never ahead of or more than one behind the published slot; at the end of a slot it is not yet marked finished |
| `TimeSlots.PublishWaitsForAll` | rtdal_lnx/src/rtdal_kernel_thread.c:133-149 | whenever the kernel is about to publish the next slot, every pipeline has run and finished the current one |
| `TimeSlots.UnlockedReadIsStable` | rtdal_lnx/src/pipeline_sync.c:28-36 | the unlocked second read of `timeslot` returns the value that ended the wait |
| `TimeSlots.NoLostWakeUp` | rtdal_lnx/src/pipeline_sync.c:28-44 | nobody sleeps on either condition variable with its exit condition already true once the broadcasting section is left |
| `TimeSlots.NoDeadlock` | rtdal_lnx/src/rtdal_kernel.c:97-99 | in every reachable state some thread can take an ordinary step, with n + 1 participants at the barrier |
| `SlotProgress.SlotsKeepComing` | rtdal_lnx/src/rtdal_kernel_thread.c:106-149 | under every schedule the ordinary steps are at most 19n + 15 per published slot plus two per spurious wake-up, so slots keep being published if spurious wake-ups are finitely many |
| `PipelineList.Pipeline.Add` | rtdal_lnx/src/pipeline.c:288-330 | the new list is the old one with the process behind all of the same or an earlier position; the list stays acyclic, duplicate-free, sorted by position and arrival, with the right count; the returned number is the place exactly for a new head; says exactly when the place is the documented one, and what becomes of the links and the count for a process already in the list |
| `PipelineList.DocumentedPlaceIff` | rtdal_lnx/src/pipeline.c:276-287 | the insertion place is min(n, exec_position) exactly if the neighbours of that place have the position between them |
| `PipelineList.DocumentedPlaceMissed` | rtdal_lnx/src/pipeline.c:276-287 | position 3 before a process at position 5: place 0, documented as 1 |
| `PipelineList.InsertBehindHead` | rtdal_lnx/src/pipeline.c:288-330 | an addition behind the head stands at place 1 and returns 0 |
| `PipelineList.AddTwice` | rtdal_lnx/src/pipeline.c:288-330 | the same process added twice is counted twice and points to itself |
| `PipelineList.Pipeline.Remove` | rtdal_lnx/src/pipeline.c:338-370 | removes exactly that process and keeps the invariant, or returns -1 and changes nothing exactly if it is not in the list |
| `PipelineList.OrderDetermined` | rtdal_lnx/src/pipeline.c:288-370 | after any additions and removals the list is the only arrangement of its processes by position and, among equals, arrival |
| `PipelineList.Pipeline.RunModule` | rtdal_lnx/src/pipeline.c:70-85 | runs a runnable process and records it with its index; a failing one is taken out of the list and its `next` cleared |
| `PipelineList.Pipeline.RunTimeSlot` | rtdal_lnx/src/pipeline.c:127-163 | runs the runnable processes in list order, each once, up to the first failing one; the corruption check never trips; a disabled pipeline runs nothing; the slot number, the last process run and its place are recorded |
| `PipelineList.SlotUpToFailure` | rtdal_lnx/src/pipeline.c:136-155 | if a runnable process fails, a slot runs the runnable processes before it and itself, and the list loses exactly it |
| `PipelineList.SlotWithoutFailure` | rtdal_lnx/src/pipeline.c:136-155 | if none fails, a slot runs all runnable processes and leaves the list |
| `PipelineList.RunnablesConcat` | rtdal_lnx/src/pipeline.c:136-155 | the runnable processes of a list are those of its parts, in order |
| `PipelineList.RunsAllIff` | rtdal_lnx/src/pipeline.c:136-155 | a slot runs every runnable process exactly if no runnable process comes after a runnable failing one |
| `PipelineList.SecondNotRun` | rtdal_lnx/src/pipeline.c:136-155 | two runnable processes, the first failing: the second does not run |
| `SpscQueue.StepInv` | rtdal_lnx/src/rtdal_itfspscq.c:155-265 | every shared-memory access of either side, in any interleaving, keeps the queue's invariant |
| `SpscQueue.FifoExactlyOnce` | rtdal_lnx/src/rtdal_itfspscq.c:155-265 | in every run, release number i saw exactly the data, length and time stamp that push number i published, untorn and not before its due slot; at most `max_msg` are in flight; `SpscCalls` ties both to the calls |
| `SpscQueue.HistoriesGrow` | rtdal_lnx/src/rtdal_itfspscq.c:155-265 | nothing pushed or released is ever taken back |
| `SpscQueue.ValidSlotsAreInterval` | rtdal_lnx/src/rtdal_itfspscq.c:130-153 | outside the index updates, the valid slots are exactly the circular interval from `read` to `write` |
| `SpscQueue.SeparateOwnership` | rtdal_lnx/src/rtdal_itfspscq.c:155-265 | the slot the producer holds is never the slot the consumer holds |
| `SpscQueue.RequestGrantedIffSpace` | rtdal_lnx/src/rtdal_itfspscq.c:143-174 | a request is granted exactly if fewer than `max_msg` pushed packets are unreleased |
| `SpscQueue.PopGrantedIffDue` | rtdal_lnx/src/rtdal_itfspscq.c:207-245 | a pop passes its tests exactly if something is queued and the oldest packet is due by the clock it read |
| `SpscQueue.DelayIsOrdered` | rtdal_lnx/src/rtdal_itfspscq.c:189-198 | due times are push slot plus delay, never decrease, and whenever any queued packet is due the oldest one is |
| `SpscCalls.PushesPublished` | rtdal_lnx/src/rtdal_itfspscq.c:176-205 | in every run, the push calls of the schedule with a length other than 0 are published in order, each with the length it was given and the slot clock it read; only the call in progress may be missing |
| `SpscCalls.BytesPublished` | rtdal_lnx/src/rtdal_itfspscq.c:155-205 | the data of push number i is, at every index, the byte last written there into its slot before that call |
| `SpscCalls.ReleasesCounted` | rtdal_lnx/src/rtdal_itfspscq.c:247-265 | every release call takes effect once; only the one in progress may be outstanding |
| `SpscCalls.CallDelivered` | rtdal_lnx/src/rtdal_itfspscq.c:176-265 | what release number i saw is the length that push call number i was given and that call's slot plus the delay |
| `SpscCalls.ByteDelivered` | rtdal_lnx/src/rtdal_itfspscq.c:155-265 | every byte read before release number i is the one last written there before push call number i |
| `SpscCalls.NeverEarly` | rtdal_lnx/src/rtdal_itfspscq.c:207-245 | a packet is held only once the slot clock has reached its due slot |
| `SpscInterface.Interface.constructor` | rtdal_lnx/src/rtdal_itfspscq.c:62-93 | a new interface is empty with its configured sizes and delay |
| `SpscInterface.Interface.Request` | rtdal_lnx/src/rtdal_itfspscq.c:155-174 | refused exactly if all slots are taken |
| `SpscInterface.Interface.Push` | rtdal_lnx/src/rtdal_itfspscq.c:176-205 | marks the slot at `write` with due time and length and moves on; if that slot was granted, this appends exactly one packet to the queue, or nothing for length 0 |
| `SpscInterface.Interface.Pop` | rtdal_lnx/src/rtdal_itfspscq.c:207-245 | offers the oldest unreleased packet exactly if it is due |
| `SpscInterface.Interface.Release` | rtdal_lnx/src/rtdal_itfspscq.c:247-265 | clears the slot at `read` and moves on; on a queue that is not empty this frees exactly the oldest packet |
| `SpscInterface.Interface.Send` | rtdal_lnx/src/rtdal_itfspscq.c:294-314 | too long, full, or the bytes appended as one packet |
| `SpscInterface.Interface.Recv` | rtdal_lnx/src/rtdal_itfspscq.c:316-339 | delivers the oldest due packet cut to the room there is, or nothing |
| `SpscInterface.SendThenRecv` | rtdal_lnx/src/rtdal_itfspscq.c:294-339 | what is sent through an empty queue is received byte for byte, exactly once the delay has passed |
| `SpuMemcpy.BreakMask` | volk/spu_lib/spu_memcpy_unaligned.c:43-50 | the compare, or, mask and add steps give the shuffle pattern that switches operands at the given byte |
| `SpuMemcpy.BuildMasks` | volk/spu_lib/spu_memcpy_unaligned.c:26-66 | the five masks have the meaning the copy needs, for every alignment of source, target and length |
| `SpuMemcpy.CopyFullBlock` | volk/spu_lib/spu_memcpy_unaligned.c:82-104 | one round of the main loop advances the copy by 16 bytes and touches nothing else |
| `SpuMemcpy.CopyTail` | volk/spu_lib/spu_memcpy_unaligned.c:106-122 | the read-modify-write tail completes the copy for every remainder, zero included |
| `SpuMemcpy.MemcpyUnaligned` | volk/spu_lib/spu_memcpy_unaligned.c:4-123 | for all alignments and lengths the target bytes are the old source bytes and every other byte of memory is unchanged, for disjoint ranges and for a target at or below an overlapping source |
| `RateMatching.TablesInverse` | modrep_osld/lte_ctrl_ratematching/src/ctrl_ratematching_rx.c:36-39 | the receiver's dummy pattern and the transmitter's column permutation are inverse to each other; `RateOrder.PermIsReversal` says which permutation it is |
| `RateMatching.RankTotal` | modrep_osld/lte_ctrl_ratematching/src/ctrl_ratematching_tx.c:78-113 | exactly K of the interleaver's positions carry a symbol |
| `RateMatching.InterleavedStream` | modrep_osld/lte_ctrl_ratematching/src/ctrl_ratematching_tx.c:78-140 | interleaving and dropping the dummies sends symbol q to its stream index |
| `RateMatching.SentSymbol` | modrep_osld/lte_ctrl_ratematching/src/ctrl_ratematching_tx.c:152-173 | each input symbol travels at its own place of the collected sequence, of 3K symbols |
| `RateMatching.ReceivedSymbol` | modrep_osld/lte_ctrl_ratematching/src/ctrl_ratematching_rx.c:136-161 | for any E, a symbol whose first place is below E comes back and any other is zero |
| `RateMatching.RoundTrip` | modrep_osld/lte_ctrl_ratematching/src/ctrl_ratematching_rx.c:136-161 | for every K and every E of at least 3K, the receiver inverts the transmitter |
| `RateMatching.ArrivingCount` | modrep_osld/lte_ctrl_ratematching/src/ctrl_ratematching_tx.c:125-173 | for E below 3K, exactly E input positions arrive |
| `RateMatching.ChannelDelivers` | modrep_osld/lte_ctrl_ratematching/src/ctrl_ratematching_rx.c:136-161 | for every E the receiver's whole output: the symbols that arrive, and zero elsewhere |
| `RateMatcher.CharUnwrap` | modrep_osld/lte_ctrl_ratematching/src/ctrl_ratematching_tx.c:55-66 | splits the input into its three interlaced streams |
| `RateMatcher.SubblockInterleaver` | modrep_osld/lte_ctrl_ratematching/src/ctrl_ratematching_tx.c:78-113 | the matrix loops compute the interleaved block with its dummies |
| `RateMatcher.BitSelection` | modrep_osld/lte_ctrl_ratematching/src/ctrl_ratematching_tx.c:125-140 | the output is the non-dummy symbols repeated from the start, cut at the requested length |
| `RateMatcher.RateMatch` | modrep_osld/lte_ctrl_ratematching/src/ctrl_ratematching_tx.c:152-173 | the transmitter's loops compute the specified sequence; symbols that look like a dummy are dropped, and a symbol that does not is needed for the source to come to an end |
| `RateMatcher.InsertDummies` | modrep_osld/lte_ctrl_ratematching/src/ctrl_ratematching_rx.c:92-110 | the marks and the running index place received symbol number r at the r-th position that is not a dummy |
| `RateMatcher.SubblockDeinterleaver` | modrep_osld/lte_ctrl_ratematching/src/ctrl_ratematching_rx.c:84-124 | every symbol of the block is fetched from its stream index |
| `RateMatcher.FloatWrap` | modrep_osld/lte_ctrl_ratematching/src/ctrl_ratematching_rx.c:62-72 | interlaces the three streams |
| `RateMatcher.RateUnmatch` | modrep_osld/lte_ctrl_ratematching/src/ctrl_ratematching_rx.c:136-161 | the receiver's loops compute the specified inverse, for any input and output length |
| `RateMatcher.MatchThenUnmatch` | modrep_osld/lte_ctrl_ratematching/src/ctrl_ratematching_rx.c:136-161 | the two programs, one after the other, for every E: min(E, S) positions return their input and the others zero; all of the input if E is at least S |
| `RateOrder.PermIsReversal` | modrep_osld/lte_ctrl_ratematching/src/ctrl_ratematching.h:30-33 | entry (v + 16) mod 32 of the column permutation is v with its five bits reversed, for every v |
| `RateOrder.PdIsReversal` | modrep_osld/lte_ctrl_ratematching/src/ctrl_ratematching_rx.c:36-39 | the receiver's entry for a column is its five bits reversed, plus 16, mod 32 |
| `RateOrder.NumberCovers` | modrep_osld/lte_ctrl_ratematching/src/ctrl_ratematching.h:30-33 | every column has such a five-bit form |
| `RateOrder.StreamIndexIsAhead` | modrep_osld/lte_ctrl_ratematching/src/ctrl_ratematching_tx.c:78-140 | a symbol is sent at the number of symbols whose column is read earlier, or that stand above it in its column |
| `RateOrder.SentInTurn` | modrep_osld/lte_ctrl_ratematching/src/ctrl_ratematching_tx.c:152-173 | the collected sequence has every input symbol at its turn: its stream's, and within the stream after the symbols ahead of it |
| `RateOrder.TurnOfPlace` | modrep_osld/lte_ctrl_ratematching/src/ctrl_ratematching_tx.c:152-173 | every place of a round is the turn of a symbol, so the turns say what the whole output is |
| `RateOrder.RateMatchLte` | modrep_osld/lte_ctrl_ratematching/src/ctrl_ratematching_tx.c:152-173 | with the source's tables, every output place holds the input symbol whose turn it is, round after round |
| `RateOrder.RateUnmatchLte` | modrep_osld/lte_ctrl_ratematching/src/ctrl_ratematching_rx.c:136-161 | with the source's tables, every output symbol is the received one at its turn, or zero if the turn is not among the received ones |
| `RateOrder.MatchThenUnmatchLte` | modrep_osld/lte_ctrl_ratematching/src/ctrl_ratematching_rx.c:136-161 | the two operations with the source's tables: a symbol comes back exactly if its turn is among the first E, and is zero otherwise |
| `RateOrder.FirstOfMany` | modrep_osld/lte_ctrl_ratematching/src/ctrl_ratematching_tx.c:108-108 | of 96 symbols, number 3 is sent first |
| `Crc.Chunk` | modrep_osld/gen_crc/src/crc.c:22-36 | adding up to 16 bits at the top and clocking that often equals feeding them one by one |
| `Crc.SerialIsRemainder` | modrep_osld/gen_crc/src/crc.c:46-66 | the register holds the remainder of M(x) x^16 by polynomial long division, for every message and polynomial |
| `Crc.CodewordChecks` | modrep_osld/gen_crc/src/crc.c:46-75 | a message followed by its CRC checks to zero |
| `Crc.EqualChecks` | modrep_osld/gen_crc/src/crc.c:22-76 | with an odd polynomial, words that agree outside 16 positions and have the same CRC are equal |
| `Crc.MissedBurst` | modrep_osld/gen_crc/src/crc.c:22-76 | a concrete burst that an even polynomial misses |
| `Crc.BurstsDetectedIffOdd` | modrep_osld/gen_crc/src/crc.c:22-76 | every burst within 16 positions of every word is detected exactly if the polynomial is odd |
| `Crc.Icrc1` | modrep_osld/gen_crc/src/crc.c:22-36 | the 32-bit shifts of the source clock the low 16 bits as specified |
| `Crc.IcrcRegister` | modrep_osld/gen_crc/src/crc.c:46-66 | the loop over chunks of eight bits, the last one shorter, computes the bit-serial register |
| `Crc.Icrc` | modrep_osld/gen_crc/src/crc.c:38-76 | returns the CRC, pastes it behind the message if asked, as sixteen characters 1 or 0, highest bit first, and changes nothing else |
| `Crc.PasteThenCheck` | modrep_osld/gen_crc/src/crc.c:38-76 | pasting gives the polynomial remainder, as characters 1 and 0, and a second pass over the whole gives zero |
| `CrcDivision.RemainderIff` | modrep_osld/gen_crc/src/crc.c:22-66 | the remainder is r exactly if the dividend is some multiple of x^16 + g, by polynomial multiplication, plus r |
| `CrcDivision.CodewordIff` | modrep_osld/gen_crc/src/crc.c:46-75 | sixteen bits behind a message make it a multiple of x^16 + g exactly if they are its CRC |
| `CrcDivision.InitialRegister` | modrep_osld/gen_crc/src/crc.c:46-66 | an initial register acts as if added to the first sixteen message bits |
| `ConvCode.Encode` | modrep_osld/gen_convcoder/src/conv_encode.c:33-79 | the shift register loops compute the code word: the convolution of each generator with the past input, circular when tail-biting; nothing is written beyond it |
| `ConvCode.BuildTaps` | modrep_osld/gen_convcoder/src/conv_encode.c:47-54 | unpacks the generators, most significant bit first |
| `ConvCode.ImpulseResponse` | modrep_osld/gen_convcoder/src/conv_encode.c:56-77 | a single one, at any place, is answered by the taps of each generator, one after the other, around the end when tail-biting, and by zeros everywhere else |
| `ConvCode.Linear` | modrep_osld/gen_convcoder/src/conv_encode.c:56-77 | the code word of an exclusive-or is the exclusive-or of the code words |
| `ConvCode.RotationInvariant` | modrep_osld/gen_convcoder/src/conv_encode.c:33-77 | turning the input of a tail-biting code by r turns the output by r times the rate |
| `Trellis.PrevThenNext` | modrep_osld/gen_viterbi/src/viterbi_decoder.c:54-69 | the decoder's two predecessors of a state lead to it on the input bit of its half |
| `Trellis.NextThenPrev` | modrep_osld/gen_viterbi/src/viterbi_decoder.c:54-69 | every state and bit is found again from the successor |
| `Trellis.TableMatchesEncoder` | modrep_osld/gen_viterbi/src/viterbi_decoder.c:54-84 | the table entry of the branch the encoder takes is the encoder's output on the matching register |
| `Trellis.EncoderStep` | modrep_osld/gen_convcoder/src/conv_encode.c:56-64 | shifting a bit into the encoder's register is a step of the trellis |
| `Trellis.TailBites` | modrep_osld/gen_convcoder/src/conv_encode.c:33-40 | a tail-biting encoder ends in the state it started from |
| `Trellis.EncoderOutput` | modrep_osld/gen_convcoder/src/conv_encode.c:56-77 | the code word is the trail of outputs along the encoder's states |
| `Viterbi.MetricsNonNegative` | modrep_osld/gen_viterbi/src/viterbi_decoder.c:86-133 | no path metric is ever negative, for any soft input |
| `Viterbi.PathIsFree` | modrep_osld/gen_viterbi/src/viterbi_decoder.c:86-133 | sign-correct soft input keeps the metric at zero along any path of the encoder from any start state |
| `Viterbi.EncoderPathIsFree` | modrep_osld/gen_viterbi/src/viterbi_decoder.c:86-133 | the same for the code word that the encoder computes, tail-biting or not |
| `Viterbi.ReadBitIsInBit` | modrep_osld/gen_viterbi/src/viterbi_decoder.c:164-185 | comparing the two states of a transition finds the bit that caused it |
| `Viterbi.TraceIsPath` | modrep_osld/gen_viterbi/src/viterbi_decoder.c:148-185 | encoding the read-out bits from the oldest traced state visits exactly the traced states |
| `Viterbi.FaithfulTrace` | modrep_osld/gen_viterbi/src/viterbi_decoder.c:135-162 | on sign-correct input the traceback stays on states of metric zero |
| `ViterbiRules.MetricStep` | modrep_osld/gen_viterbi/src/viterbi_decoder.c:101-131 | of the two transitions into a state, the one whose start metric plus number of disagreeing signs is smaller is kept, the lower state's if equal, and the kept metric grows by that number times the sum of the group's magnitudes |
| `ViterbiRules.TraceRule` | modrep_osld/gen_viterbi/src/viterbi_decoder.c:148-161 | the traceback goes to the predecessor of smaller metric, to the lower one if they are equal |
| `ViterbiRules.SmallDecoded` | modrep_osld/gen_viterbi/src/viterbi_decoder.c:101-185 | generators 3 and 1, constraint length 2, soft bits -1, 3, -2, -3: the final metrics are 10 and 5 and the bits 1 and 1 |
| `ViterbiStart.ModerateInputStarts` | modrep_osld/gen_viterbi/src/viterbi_decoder.c:135-146 | the traceback has a start if the rate times the sum of the soft bits' magnitudes is below 1000000 |
| `ViterbiStart.FaithfulStarts` | modrep_osld/gen_viterbi/src/viterbi_decoder.c:135-146 | the traceback has a start on every sign-correct input |
| `ViterbiStart.NoStart` | modrep_osld/gen_viterbi/src/viterbi_decoder.c:135-153 | generators 3 and 3, constraint length 2, soft bits 999999 and -1: no state is recorded, as both final metrics are the bound itself |
| `ViterbiStart.SingleRecordIff` | modrep_osld/gen_viterbi/src/viterbi_decoder.c:135-146 | one state is recorded exactly if the first one below the bound has the smallest metric |
| `ViterbiStart.RecordsCount` | modrep_osld/gen_viterbi/src/viterbi_decoder.c:135-146 | the recorded states are those below the bound and smaller than every state before them |
| `ViterbiStart.SurplusBit` | modrep_osld/gen_viterbi/src/viterbi_decoder.c:135-186 | generator 2, constraint length 2, soft bit 1: two states are recorded, so one step gives two bits |
| `ViterbiDecoder.BuildTable` | modrep_osld/gen_viterbi/src/viterbi_decoder.c:54-84 | the table loops compute the specified entries for all states and branches |
| `ViterbiDecoder.PathMetrics` | modrep_osld/gen_viterbi/src/viterbi_decoder.c:86-133 | the metric loops fill every column with the path metrics, whose recurrence is `ViterbiRules.MetricStep` |
| `ViterbiDecoder.FindStart` | modrep_osld/gen_viterbi/src/viterbi_decoder.c:135-146 | as many states are recorded as there are new minima below the bound, and the last one is the first state with the smallest final metric; the states recorded ascend; none is recorded exactly if all reach the bound |
| `ViterbiDecoder.Traceback` | modrep_osld/gen_viterbi/src/viterbi_decoder.c:148-162 | every entry is the better predecessor, at its time, of the entry before it |
| `ViterbiDecoder.ReadOut` | modrep_osld/gen_viterbi/src/viterbi_decoder.c:164-186 | the bits of all transitions, oldest first |
| `ViterbiDecoder.Decode` | modrep_osld/gen_viterbi/src/viterbi_decoder.c:45-186 | the first N_d_bits/rate decoded bits drive the encoder from the oldest traced state through the traced states to the first state of smallest metric; gives the exact number of bits, all surplus ones being zero; fails exactly if every final metric reaches the bound |
| `DemapperTables.FillRow` | modrep_osld/gen_soft_demod/src/soft_demod_tables.c:253-295 | lists the symbols without and with a bit of a given weight, in order |
| `DemapperTables.SetBpskTable` | modrep_osld/gen_soft_demod/src/soft_demod_tables.c:64-65 | the BPSK points by label |
| `DemapperTables.SetBpskIndex` | modrep_osld/gen_soft_demod/src/soft_demod_tables.c:72-75 | the BPSK symbols by bit |
| `DemapperTables.SetQpskTable` | modrep_osld/gen_soft_demod/src/soft_demod_tables.c:80-90 | the QPSK points by label |
| `DemapperTables.SetQpskIndex` | modrep_osld/gen_soft_demod/src/soft_demod_tables.c:98-108 | the QPSK symbols by bit |
| `DemapperTables.SetQam16Table` | modrep_osld/gen_soft_demod/src/soft_demod_tables.c:113-137 | the 16QAM points by label |
| `DemapperTables.SetQam16Index` | modrep_osld/gen_soft_demod/src/soft_demod_tables.c:146-169 | the 16QAM symbols by bit |
| `DemapperTables.SetQam64Table` | modrep_osld/gen_soft_demod/src/soft_demod_tables.c:174-251 | the 64QAM points by label |
| `DemapperTables.SetQam64Index` | modrep_osld/gen_soft_demod/src/soft_demod_tables.c:253-295 | the 64QAM symbols by bit |
| `Demapper.MemberBit` | modrep_osld/gen_soft_demod/src/soft_demod_tables.c:253-295 | every symbol in a list has the bit that the list is for |
| `Demapper.MemberOf` | modrep_osld/gen_soft_demod/src/soft_demod_tables.c:253-295 | every symbol is in the list of its bit, at every bit place |
| `Demapper.SoftAgreesWithHard` | modrep_osld/gen_soft_demod/src/soft_demod_functions.c:46-89 | for every point of the plane, modulation, bit and noise variance, a negative soft value means the nearest symbol's bit is 0 and a positive one that it is 1 |
| `Demapper.NearestListed` | modrep_osld/gen_soft_demod/src/soft_demod_functions.c:53-81 | the smallest listed distance is that of a symbol with the bit than which no other with the bit is closer |
| `Demapper.SoftValueUnique` | modrep_osld/gen_soft_demod/src/soft_demod_functions.c:46-89 | that property fixes the soft value of every bit of every point |
| `Demapper.BpskSoft` | modrep_osld/gen_soft_demod/src/soft_demod_functions.c:46-89 | the soft value of a BPSK point in closed form: -4 u (re + im) over the noise variance |
| `DemapperLoops.HardBpskSymbol` | modrep_osld/gen_hard_demod/src/hard_demod_functions.c:70-89 | the branches decide by the side of the antidiagonal, ties included, which is a nearest BPSK symbol |
| `DemapperLoops.HardQpskSymbol` | modrep_osld/gen_hard_demod/src/hard_demod_functions.c:112-128 | the sign tests decide each axis, ties included, which gives a nearest QPSK symbol |
| `DemapperLoops.HardQam16Symbol` | modrep_osld/gen_hard_demod/src/hard_demod_functions.c:146-175 | sign and threshold decide each axis, ties included, which gives a nearest 16QAM symbol |
| `DemapperLoops.HardQam64Symbol` | modrep_osld/gen_hard_demod/src/hard_demod_functions.c:188-233 | sign and thresholds decide each axis, ties included, which gives a nearest 64QAM symbol |
| `DemapperLoops.HardDemod` | modrep_osld/gen_hard_demod/src/hard_demod_functions.c:243-251 | every symbol of the sequence gets its decision, and nothing is written beyond |
| `DemapperLoops.DecisionIsNearest` | modrep_osld/gen_hard_demod/src/hard_demod_functions.c:70-233 | for every point and modulation the decision labels a constellation point than which none is closer |
| `DemapperLoops.DecisionUnique` | modrep_osld/gen_hard_demod/src/hard_demod_functions.c:70-233 | the decision is fixed for every point, ties included |
| `DemapperLoops.LlrApprox` | modrep_osld/gen_soft_demod/src/soft_demod_functions.c:46-89 | for every symbol and bit, the noise variance times the output at s*B+b is the squared distance to a nearest constellation point whose label has a 0 there less that to a nearest one with a 1; nothing beyond is written |
| `DemapperLoops.SequencesAgree` | modrep_osld/gen_soft_demod/src/soft_demod_functions.c:82-86 | the two demappers' output arrays never contradict each other |
| `GoldSequence.Generate` | modrep_osld/lte_lib/sequences.c:14-32 | the loops compute the sequence of the two recurrences after the warm-up, for all lengths the arrays allow |
| `GoldSequence.StepBack` | modrep_osld/lte_lib/sequences.c:23-26 | the second register can be run backwards |
| `GoldSequence.FirstRegister` | modrep_osld/lte_lib/sequences.c:17-25 | the first register is the one of section 7.2 of TS 36.211, at every place |
| `GoldSequence.SeedsBySequence` | modrep_osld/lte_lib/sequences.c:14-32 | sequences of at least 31 bits are equal exactly if the low 31 bits of the seeds are |
| `GoldSequence.SeedIsDetermined` | modrep_osld/lte_lib/sequences.c:14-32 | two different 31-bit seeds never give the same sequence |
| `GoldSequence.StandardIffZero` | modrep_osld/lte_lib/sequences.c:9-26 | over 62 bits or more the sequence is the one of section 7.2 of TS 36.211 exactly for seeds whose low 31 bits are zero |
| `GoldSequence.ZeroGivesStandard` | modrep_osld/lte_lib/sequences.c:9-26 | those seeds give the standard's sequence at every length |
| `GoldSequence.SeedTwoDeparts` | modrep_osld/lte_lib/sequences.c:23-26 | seed 2: the first bit fed back is 0, and 1 in the standard |
| `GoldSequence.SeedTwoDiffers` | modrep_osld/lte_lib/sequences.c:9-26 | seed 2: the sequence is not the standard's |
| `BlockAdapter.Adapter.constructor` | modrep_default/block_adapter/src/block_adapter.c:42-60 | an empty buffer of the given or the default size |
| `BlockAdapter.Adapter.PutData` | modrep_default/block_adapter/src/block_adapter.c:74-86 | appends the packet to what is buffered, around the end if need be |
| `BlockAdapter.Adapter.GetData` | modrep_default/block_adapter/src/block_adapter.c:88-100 | takes the oldest buffered bytes out |
| `BlockAdapter.Adapter.Work` | modrep_default/block_adapter/src/block_adapter.c:106-139 | after every call, all bytes given out followed by those buffered are all bytes accepted, in order; says exactly when a packet is accepted, a block given out, or the block length refused, and that nothing beyond the block is written |
| `RtLog.Log.constructor` | rtdal_lnx/src/rtdal_log.c:151-201 | an empty log of the given or the default size |
| `RtLog.ShowsNext` | rtdal_lnx/src/rtdal_log.c:224-241 | appending a record, with or without wrapping, again leaves the last bytes of the whole history in the memory |
| `RtLog.Log.Add` | rtdal_lnx/src/rtdal_log.c:207-246 | a record larger than the memory is dropped, any other is appended to the history |
| `RtLog.Log.Flush` | rtdal_lnx/src/rtdal_log.c:113-122 | writes the last min(total, size) bytes of all accepted records |

## Left out

- Memory is sequentially consistent; thread creation, priorities, signals and real-time fault correction are not modelled.
- `wait_on_finish` is on and real-time control is off; the kernel runs in its own thread.
- Slot numbers and the slot clock are unbounded; their 32-bit wrap-around is not modelled.
- The packet queue's blocking modes (`delay < 0`), its reset and its removal. In module SpscQueue clients push only after a granted request and release only after a granted pop, as the source's own commented-out guards would ask.
- PipelineList.Pipeline.RunTimeSlot: leaves out the finish callback, which is foreign code, and takes the processes that fail as a set in place of `run_point`.
- RateMatcher.RateMatch: buffers are as long as needed instead of the source's fixed bounds.
- GoldSequence.StandardIffZero: nothing is claimed of sequences shorter than 62 bits from a seed that is not zero.
- CRC widths other than 16, where the source's shift pair keeps more bits than the width; a message of length 0, on which the source's loop does not end.
- Crc.IcrcRegister: requires a non-empty message for that reason.
- Full correctness of Viterbi decoding: the traceback follows the smaller predecessor metric instead of the recorded survivor, so exact decoding depends on the code.
- ViterbiDecoder.Decode: constraint lengths 2 to 8, the range in which the source's 8-bit states do not overflow; arrays are as long as needed instead of 128 states by 2048 steps.
- Floating-point rounding: metrics, distances and soft values are exact reals, and the constellation levels are multiples of an arbitrary positive unit.
- The zero-filling of unused entries of the soft demapper's index tables, the exact log-likelihood demapper and the real-valued BPSK demapper.
- The log's mutexes, file handling and formatted records; the block adapter's parameter lookup.
- The other modules of the repository: wrappers of FFT, vector and radio libraries, sockets and files, configuration parsing, padding, multiplexing, CFI, BCH and DCI packing, the other SPU kernels.
