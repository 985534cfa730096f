# A Dafny model of the IPA helper

The repository is a helper party for Interoperable Private Attribution: three helpers compute, on
secret shares, which ad impressions are credited with which conversions. This project models the
parts whose correctness is hard to see from any one function and proves what they promise.

Secret shares are modelled by the field values they reconstruct to, and secure multiplication by
multiplication modulo `p`. Nothing needs `p` to be prime, so every statement about shares holds for
every modulus of at least 2. Wakers are task names, atomics are atomic steps, and randomness, the
network and the scheduler are parameters over which every theorem quantifies.

| files | what they cover |
|---|---|
| `Wrappers`, `Sets`, `PrimeField`, `Bits` | optional values, counting, field values, bit strings |
| `SegmentedScan` | the two log-depth scans |
| `Comparison`, `AddConstant` | masked comparison with a constant, ripple-carry adder |
| `AttributionRows`, `ApplyAttributionWindow`, `CreditCapping`, `SecureAttribution`, `AttributionTheorems` | window, last-touch accumulation, user-level capping, and what they mean per user |
| `BinaryPolynomials`, `GaloisField`, `GaloisTypes`, `GaloisIrreducible`, `GaloisWords`, `GaloisOrder` | GF(2^n) arithmetic, and which declared types are fields |
| `ApplyPermutation` | in-place permutation |
| `OrderingBuffer`, `OrderingProtocol`, `OrderingProgress`, `UnorderedReceiver`, `Channel`, `ChannelProgress` | the record channel, from concurrent senders to unordered receivers |
| `ReceiverWakes` | how often a receiver far ahead of its turn is woken for nothing |
| `OrderingMpsc`, `MpscBlocking` | reorder ring and the senders that wait for it |
| `SeqJoin`, `SeqJoinDeadlock` | in-order bounded scheduler, and when futures that wait for one another get through it |
| `QueryProtocol`, `QueryOrphans`, `QueryRequests` | query coordination between three helpers |
| `StepTree` | construction of the step tree |

Main results:

- **Attribution.** For every non-empty input, window and cap, `Attribute` gives each row what one right-to-left
  rule gives it: its last-touch credit, at most the cap, as far as the user's later rows left budget. The rule's
  totals are exact integers although the prefix sums wrap modulo `p`. The cap-one protocol obeys the same rule.
  The three ways to fail, a window that is no field element, a cap too large, and too few rows for the cap-one
  slices, have exact conditions. The last-touch credits of all rows sum, modulo `p`, to the sources' own values and
  the values of the creditable triggers, each counted once. In terms of match keys: a source is credited with the
  triggers of its key that follow it directly, and when the rows of each key stand together, each key's rows sum to
  the lesser of the cap and the sum of their capped credits.
- **Channel.** Over all interleavings of senders no poll panics, bytes stay in index order, and no operation is
  stranded; every scheduler of due steps ends after finitely many of them with everything delivered. At every
  point of every run, for every chunking in between and every order in which the receivers are polled, a receiver
  that completes has the message sent under its index, and whoever waits is registered, woken or at its turn. With
  all messages in the stream, every scheduler of receivers that are due ends with every message received. While the
  channel is open the stream is handed full chunks only, and a sleeping reader is woken if and only if one is there
  or the channel is closed. The number of idle wake-ups of an early receiver is known exactly.
- **Reorder ring.** Takes concatenate to the messages in index order. Every scheduler comes to rest, and has then
  delivered everything if and only if no sender of the message needed next registered after the notification meant
  for it; a sender that did so waits for ever.
- **Galois types.** Multiplication is a commutative ring for every width. It is a field if and only if the
  shifted polynomial is irreducible, which decides all eight declared types.
- **Coordination.** At most one `new_query` succeeds between completions, as long as no completion removes the
  entry of a helper whose own call is waiting. The condition is exact: after any such completion, in any run, two
  calls on different helpers can begin and succeed with no completion between them.
  A helper with an entry refuses a request, and the refused call never succeeds; an entry is written for a request
  only after a moment at which the helper had none.
- **Sequential join.** A call that stalls has polled every held future that has not resolved, once and in order.
  Futures that wait for one another all resolve if and only if none waits for one that is `active` or more places
  behind it or does not exist.
- **Step tree.** The one-pass walk is right if and only if no path extends the name of a parent by a character
  that sorts before `/`.

Where the code and its documentation disagree the model follows the code:

- `galois_field.rs` says that all its types are fields. `Gf40Bit`, `Gf20Bit` and `Gf5Bit` are not
  (`GaloisTypes`): `x^40 + x^5 + x^3 + x^2 + 1` is divisible by `x^3 + x^2 + 1`, the `Gf20Bit` literal has
  degree 19, and the `Gf5Bit` polynomial has the root 1. `Gf2`, `Gf3Bit`, `Gf8Bit`, `Gf9Bit` (`GaloisIrreducible`)
  and `Gf32Bit` (`GaloisOrder`) are.
- `OrderingMpscEnd::block` says that it waits until the end has been reached. It loads the end before it asks to be
  notified, so a notification in between is missed (`MpscBlocking`).
- `unordered_receiver.rs` says that a receiver `d` places out of reach of `c` wakers is woken at most `2d/c + 1`
  times extra. With eight wakers, one that is three places out of reach can be woken twice (`ReceiverWakes`, which
  gives the exact number and when the documented bound holds).
- `seq_join.rs` warns of futures that depend on one more than `active` items behind. Exactly `active` items behind
  is already too far (`SeqJoinDeadlock`).
- `add_constant.rs` says that the low `l - 1` bits of the constant are used. The low `l` are.

`PrimeField.Mod` and similar definitions are hidden in most proofs with Dafny's `hide` statement, which only
limits what the verifier may use.

## Model

| member | source | states |
|---|---|---|
| PrimeField.OrOfBits | src/protocol/boolean/or.rs:13-21 | the `or` protocol on bits is boolean or, for every modulus |
| PrimeField.IfElseSelects | src/protocol/basics/if_else.rs:11-36 | the `if_else` protocol selects by its condition bit |
| SegmentedScan.DoTheBinaryTreeThing | src/protocol/attribution/mod.rs:295-365 | the doubling loop leaves in place the linear segmented sums, for every length and arbitrary stop values, although stop bits past `next_end` go stale |
| SegmentedScan.RoundDoublesStep | src/protocol/attribution/mod.rs:308-363 | a round over values that cover `step` rows makes them cover twice as many, reading no stale stop bit |
| SegmentedScan.SumOverSplits | src/protocol/attribution/mod.rs:283-287 | a segmented sum over a range is the sum over its near part plus the product of stops times the sum over its far part |
| SegmentedScan.SumsStep | src/protocol/attribution/mod.rs:283-287 | the reference is the recurrence `out[i] = v[i] + stop[i] * out[i+1]` |
| SegmentedScan.PrefixOrBinaryTreeStyle | src/protocol/attribution/mod.rs:190-281 | the doubling loop yields the linear segmented ORs, also when it adds on the first round and no two joined rows are both 1 |
| SegmentedScan.OrRoundDoublesStep | src/protocol/attribution/mod.rs:212-279 | a round doubles the covered range, with addition allowed on the first round only |
| SegmentedScan.OrsStep | src/protocol/attribution/mod.rs:172-183 | the reference is the recurrence `out[i] = v[i] or (stop[i] and out[i+1])` |
| Bits.BitsOfIsTruncation | src/protocol/boolean/comparison.rs:252 | the low bits of a constant denote its truncation |
| Comparison.BoundsDecideComparison | src/protocol/boolean/comparison.rs:16-57 | for all `a`, `c`, `r` below `p`, the interval test on the mask `r` decides `a > c` |
| Comparison.ComputeRBounds | src/protocol/boolean/comparison.rs:129-145 | both bounds are at most `p`, so they fit in its bit length |
| Comparison.FirstDifferingBit | src/protocol/boolean/comparison.rs:232-293 | the prefix-OR differences are one-hot at the highest differing bit, or all zero |
| Comparison.OneHotSelectsComparison | src/protocol/boolean/comparison.rs:155-230 | the dot products of the one-hot vector with the bits and with their complement are the two comparisons |
| Comparison.BitwiseGreaterThanConstant | src/protocol/boolean/comparison.rs:168-186 | 1 if and only if the shared number exceeds the constant's low bits |
| Comparison.BitwiseLessThanConstant | src/protocol/boolean/comparison.rs:201-230 | 1 if and only if the shared number is below the constant's low bits |
| Comparison.GreaterThanConstant | src/protocol/boolean/comparison.rs:65-109 | 1 if and only if `a > c`, for every mask and every modulus |
| AddConstant.AddConstant | src/protocol/boolean/add_constant.rs:45-109 | the `l + 1` outputs are bits that denote `a` plus the low `l` bits of the constant, also on the known-zero-carry path |
| AddConstant.ResultBitIsSum | src/protocol/boolean/add_constant.rs:95-102 | the modular expression for a result bit is the sum bit, for every modulus including 2 |
| AttributionRows.TouchMeans | src/protocol/attribution/mod.rs:401-427 | a source is credited with a trigger if and only if every row after the source up to the trigger is a trigger with the source's match key, and the trigger is in the window |
| AttributionRows.StopBitsMark | src/protocol/attribution/mod.rs:367-399 | a stop bit is 1 if and only if its row is a trigger of the same user as the row above |
| ApplyAttributionWindow.DeltasTelescope | src/protocol/attribution/apply_attribution_window.rs:98-131 | scanning the reversed deltas telescopes to the time since the start of the run |
| ApplyAttributionWindow.PrefixSumTimeDeltas | src/protocol/attribution/apply_attribution_window.rs:85-132 | every row gets the modular time since the source or first row its run started from |
| ApplyAttributionWindow.ZeroOutExpiredTriggerValues | src/protocol/attribution/apply_attribution_window.rs:144-186 | value and active bit survive if and only if the delta is at most the window; with rows to compare, a window that is not below `p` panics |
| ApplyAttributionWindow.ApplyWindow | src/protocol/attribution/apply_attribution_window.rs:30-79 | each row keeps its value if and only if it is in the window measured from its run's start; without a window all values stay and the active bits are 0; it panics if and only if there is a window that is not below `p` |
| SecureAttribution.Accumulate | src/protocol/attribution/accumulate_credit.rs:86-141 | credits become the segmented sums of the values |
| SecureAttribution.AccumulateCapOne | src/protocol/attribution/accumulate_credit.rs:29-72 | a row's bit is 1 if and only if the row below is an active trigger of its user; the last row is dropped |
| SecureAttribution.AccumulationIsLastTouch | src/protocol/attribution/accumulate_credit.rs:16-28 | a source's accumulated value is its own value plus those of the in-window triggers whose nearest preceding source of the same user it is |
| SecureAttribution.ConversionsAreApart | src/protocol/attribution/mod.rs:177-182 | masked cap-one bits are never 1 in two adjacent rows, so adding on the first round is safe |
| SecureAttribution.AccumulateCredit | src/protocol/attribution/accumulate_credit.rs:86-141 | the rows handed to capping hold last-touch credits, or conversion bits in cap-one mode |
| SecureAttribution.Attribute | src/protocol/attribution/mod.rs:48-150 | the whole pipeline gives each row what the capping rule gives its last-touch credit; it fails in three ways, each if and only if: a window not below `p`, else a cap other than 1 of at least half of `p`, else cap 1 with fewer than three rows; when the rows of each match key stand together, for every key the results of its rows sum to the lesser of the cap and the sum of their capped credits |
| SecureAttribution.UserSumIsKeySum | src/protocol/attribution/mod.rs:401-427 | the helper bits mark off exactly the match keys: a user's sum is the sum over the rows with that key |
| AttributionTheorems.TouchIsUnique | src/protocol/attribution/accumulate_credit.rs:27-28 | no trigger credits two sources |
| AttributionTheorems.CreditIsConserved | src/protocol/attribution/accumulate_credit.rs:74-79 | over all sources the credited values sum to the values of the creditable triggers, each counted once |
| AttributionTheorems.CreditsAreConserved | src/protocol/attribution/accumulate_credit.rs:74-79 | the credits of all rows sum, modulo `p`, to the sources' own values and the values of the creditable triggers |
| AttributionTheorems.OnlyLaterTriggers | src/protocol/attribution/accumulate_credit.rs:16-28 | a row is credited with later triggers only |
| AttributionTheorems.WindowIsElapsedTime | src/protocol/attribution/apply_attribution_window.rs:23-25 | with timestamps ordered within a user the window test is on real elapsed time |
| AttributionTheorems.NextRowDecides | src/protocol/attribution/accumulate_credit.rs:16-28 | a source has an in-window trigger if and only if the row below it is one |
| AttributionTheorems.CapOnePerUser | src/protocol/attribution/credit_capping.rs:129-142 | in cap-one mode a user's rows sum to 1 if and only if they have an in-window source and trigger pair, and the 1 is on the latest such source |
| AttributionTheorems.CapOnePerKey | src/protocol/attribution/credit_capping.rs:129-142 | in cap-one mode the rows of a match key sum to 1 if some source with that key has an in-window trigger credited to it, and to 0 otherwise |
| CreditCapping.MaskSourceCredits | src/protocol/attribution/credit_capping.rs:210-234 | triggers hold no credit, sources keep theirs |
| CreditCapping.ReportLevelCapping | src/protocol/attribution/credit_capping.rs:236-265 | each credit becomes at most the cap |
| CreditCapping.CreditPrefixSum | src/protocol/attribution/credit_capping.rs:267-289 | the reversed per-user sums, modulo `p` |
| CreditCapping.IsCreditLargerThanCap | src/protocol/attribution/credit_capping.rs:291-325 | one bit per row: the sum exceeds the cap |
| CreditCapping.PropagateOverflowDetection | src/protocol/attribution/credit_capping.rs:327-349 | the reversed per-user OR of those bits |
| CreditCapping.ComputeFinalCredits | src/protocol/attribution/credit_capping.rs:351-446 | the nested selections choose among own credit, remaining budget, cap and zero |
| CreditCapping.OverflowIsCaught | src/protocol/attribution/credit_capping.rs:60-82 | with twice the cap below `p`, the OR bit is the integer comparison and the modular sum is the integer sum where the bit is 0, whatever wraps |
| CreditCapping.SelectionFollowsRule | src/protocol/attribution/credit_capping.rs:369-383 | the selection gives each row its capped credit or the cap minus what the user's later rows got, whichever is less |
| CreditCapping.CapCredits | src/protocol/attribution/credit_capping.rs:29-127 | capping follows the rule for every cap; it reports a bad parameter if and only if the cap is not 1 and at least half of `p`, and panics if and only if the cap is 1 and there are fewer than two rows |
| CreditCapping.CapCreditsMaxOne | src/protocol/attribution/credit_capping.rs:143-208 | the cap-one protocol follows the same rule with cap 1, and its slices panic if and only if there are fewer than two rows |
| CreditCapping.UserTotalIsCapped | src/protocol/attribution/credit_capping.rs:111-117 | under the rule each user's integer total is the lesser of the cap and the total of the individually capped credits |
| CreditCapping.RuleIsDeterministic | src/protocol/attribution/credit_capping.rs:111-117 | two outputs that obey the rule are equal |
| CreditCapping.CapOneKeepsLatest | src/protocol/attribution/credit_capping.rs:134-142 | with cap 1 exactly the user's latest attributed conversion is kept |
| GaloisField.Clmul | src/ff/galois_field.rs:124-130 | the shift and xor loop is the polynomial product, and fits twice the width |
| GaloisField.Multiply | src/ff/galois_field.rs:313-325 | the reduction loop terminates with the residue of the product |
| GaloisField.ProductIsUnique | src/ff/galois_field.rs:275-301 | the product is the one element that differs from the polynomial product by a multiple of the shifted polynomial |
| GaloisField.MultiplicationCommutes | src/ff/galois_field.rs:307 | multiplication commutes, for every width and polynomial |
| GaloisField.MultiplicationAssociates | src/ff/galois_field.rs:306 | multiplication associates |
| GaloisField.MultiplicationDistributes | src/ff/galois_field.rs:310 | multiplication distributes over xor |
| GaloisField.OneIsIdentity | src/ff/galois_field.rs:308 | 1 is the identity |
| GaloisField.FieldIffIrreducible | src/ff/galois_field.rs:303-310 | every non-zero element has an inverse if and only if the shifted polynomial is irreducible |
| GaloisField.Bezout | src/ff/galois_field.rs:309 | a common divisor of two polynomials with cofactors, as their combination |
| GaloisTypes.Gf5IsNotField | src/ff/galois_field.rs:616-624 | `x + 1` has no inverse in `Gf5Bit` |
| GaloisTypes.Gf20IsNotField | src/ff/galois_field.rs:586-594 | `x` has no inverse in `Gf20Bit` |
| GaloisTypes.Gf40IsNotField | src/ff/galois_field.rs:566-574 | `x^3 + x^2 + 1` has no inverse in `Gf40Bit` |
| GaloisIrreducible.Gf2IsField | src/ff/galois_field.rs:636-643 | every non-zero element of `Gf2` has an inverse |
| GaloisIrreducible.Gf3IsField | src/ff/galois_field.rs:626-634 | every non-zero element of `Gf3Bit` has an inverse |
| GaloisIrreducible.Gf8IsField | src/ff/galois_field.rs:596-604 | every non-zero element of `Gf8Bit` has an inverse |
| GaloisIrreducible.Gf9IsField | src/ff/galois_field.rs:606-614 | every non-zero element of `Gf9Bit` has an inverse |
| GaloisIrreducible.Column | src/ff/galois_field.rs:247-273 | for a second factor of degree at most 4, a coefficient of the product is the sum of products of coefficients, modulo 2 |
| GaloisOrder.Gf32IsField | src/ff/galois_field.rs:576-584 | every non-zero element of `Gf32Bit` has an inverse |
| GaloisOrder.Certified | src/ff/galois_field.rs:576-584 | a polynomial of degree 32 has only trivial factors if some element has order 65537 modulo it and one plus that element is invertible |
| GaloisOrder.OrderIsBounded | src/ff/galois_field.rs:576-584 | modulo a polynomial of degree `k` no element has an order above `2^k` |
| GaloisOrder.HornerIs | src/ff/galois_field.rs:313-325 | shift and reduce on machine words is the residue of the polynomial product |
| ApplyPermutation.Apply | src/protocol/basics/apply_permutation.rs:9-25 | position `i` ends with what stood at `perm[i]` |
| ApplyPermutation.ApplyCycle | src/protocol/basics/apply_permutation.rs:15-22 | exactly the cycle of `i` is reordered, and the loop ends |
| ApplyPermutation.ApplyInv | src/protocol/basics/apply_permutation.rs:33-47 | what stood at `i` ends at `perm[i]` |
| ApplyPermutation.ApplyInvCycle | src/protocol/basics/apply_permutation.rs:39-44 | exactly the cycle of `i` is reordered backwards, and the loop ends |
| ApplyPermutation.NextIsNew | src/protocol/basics/apply_permutation.rs:17-22 | until a cycle closes, its next position has not been visited by this or any earlier cycle |
| ApplyPermutation.ApplyThenInverse | src/protocol/basics/apply_permutation.rs:28-30 | `apply_inv` undoes `apply` |
| ApplyPermutation.InverseThenApply | src/protocol/basics/apply_permutation.rs:28-30 | `apply` undoes `apply_inv` |
| OrderingBuffer.SenderState.Write | src/helpers/buffers/ordering_sender.rs:74-94 | a message that fits is appended and wakes the reader at the threshold; otherwise the writer is remembered |
| OrderingBuffer.SenderState.Take | src/helpers/buffers/ordering_sender.rs:96-107 | all bytes if and only if there are some and either the capacity is reached or the channel is closed, waking the writer; otherwise nothing is taken and the reader is remembered |
| OrderingBuffer.SenderState.Close | src/helpers/buffers/ordering_sender.rs:109-113 | the channel closes and the reader is woken |
| OrderingBuffer.WaitingShard.Add | src/helpers/buffers/ordering_sender.rs:144-172 | a stale caller is rejected; otherwise the backwards search is sorted insertion |
| OrderingBuffer.WaitingShard.Wake | src/helpers/buffers/ordering_sender.rs:174-190 | the position never moves back, and a waiting index leaves with everything before it |
| OrderingBuffer.InsertKeepsOrder | src/helpers/buffers/ordering_sender.rs:134-136 | insertion keeps the wakers sorted and adds one index |
| OrderingProtocol.StepHolds | src/helpers/buffers/ordering_sender.rs:316-445 | every atomic step of every task and of the stream keeps the protocol invariant |
| OrderingProtocol.AddHolds | src/helpers/buffers/ordering_sender.rs:344-357 | an accepted registration for a reached index still has its wake-up ahead |
| OrderingProtocol.WakeIndexHolds | src/helpers/buffers/ordering_sender.rs:174-190 | waking a reached index costs nobody else their wake-up |
| OrderingProtocol.NeverPanics | src/helpers/buffers/ordering_sender.rs:289-293 | no run writes an index twice or after the close |
| OrderingProtocol.RejectionMeansProgress | src/helpers/buffers/ordering_sender.rs:145-150 | a rejected registration means that `next` has advanced |
| OrderingProtocol.BytesInOrder | src/helpers/buffers/ordering_sender.rs:247-249 | in every run, bytes taken plus bytes buffered are exactly the messages of the operations that have acted, in index order |
| OrderingProtocol.TakesAreFull | src/helpers/buffers/ordering_sender.rs:259-260 | in every run the stream is handed at least the capacity and at most the capacity and the spare bytes while the channel is open; fewer only after the close; below the capacity an open channel hands out nothing and the reader sleeps |
| OrderingProtocol.ReaderWokenExactly | src/helpers/buffers/ordering_sender.rs:85-113 | in every run a sleeping reader has been woken if and only if the capacity is reached or the channel is closed |
| OrderingProtocol.TakeWakesNext | src/helpers/buffers/ordering_sender.rs:368-380 | after a take, whoever waits at the position the stream saw is woken and leaves its shard |
| OrderingProtocol.NeverBothParked | src/helpers/buffers/ordering_sender.rs:295-300 | a writer waiting for room means that a take is ready and the reader is not asleep |
| OrderingProtocol.EndMeansEverything | src/helpers/buffers/ordering_sender.rs:368-380 | the stream ends only after the close, with every message read |
| OrderingProtocol.NoStrandedOperation | src/helpers/buffers/ordering_sender.rs:344-354 | in every run, once everything is at rest, the operation whose turn it is was never polled |
| OrderingProtocol.RestMeansDelivered | src/helpers/buffers/ordering_sender.rs:285-313 | if all operations were polled and the run is at rest, all have completed, and a closed channel has delivered everything |
| OrderingProgress.DueStepsRunOut | src/helpers/buffers/ordering_sender.rs:322-360 | in every reachable state every due step, retries included, decreases a well-founded measure |
| OrderingProgress.NoDueStepMeansDelivered | src/helpers/buffers/ordering_sender.rs:285-313 | when no step is due all operations have completed, and a closing channel has delivered every byte and ended |
| OrderingProgress.EverySchedulerDelivers | src/helpers/buffers/ordering_sender.rs:285-313 | from every point of every run, every scheduler that takes due steps ends after finitely many with all operations completed and a closing channel delivered and ended |
| OrderingProtocol.CloseNeverWaits | src/helpers/gateway/send.rs:73-76 | when the close is polled only after the last send has completed, it never waits for its turn |
| OrderingProtocol.RecordsKeepTheirIndex | src/helpers/gateway/send.rs:55-79 | whatever is known of the total, a record is refused if and only if it is past the count, every accepted one is sent at its own index, and no close takes the index of one |
| OrderingProtocol.LimitFitsChannel | src/helpers/gateway/send.rs:55-79 | with a record count the accepted records and the close use exactly the indices of a closing channel |
| UnorderedReceiver.Spare.Read | src/helpers/buffers/unordered_receiver.rs:60-69 | a message is the next bytes, and only if there are enough |
| UnorderedReceiver.Spare.Extend | src/helpers/buffers/unordered_receiver.rs:82-107 | a chunk is joined to what is left: nothing lost, duplicated or reordered |
| UnorderedReceiver.OperatingState.AddWaker | src/helpers/buffers/unordered_receiver.rs:176-199 | the window registers the index |
| UnorderedReceiver.OperatingState.WakeNext | src/helpers/buffers/unordered_receiver.rs:202-219 | the window advances and exactly the due wakers are woken |
| UnorderedReceiver.OperatingState.PollNext | src/helpers/buffers/unordered_receiver.rs:223-248 | the answer is pending if and only if the stream is not ready before there are enough bytes, with all chunks before that kept; bytes that are there before the first gap are served, and no chunk is taken that is not needed; exactly the due wakers are woken |
| UnorderedReceiver.ServeIsPrompt | src/helpers/buffers/unordered_receiver.rs:230-247 | the same of the answer as a function: a message, a gap or the end, after as many chunks as were needed and no more |
| UnorderedReceiver.ServeConserves | src/helpers/buffers/unordered_receiver.rs:223-248 | a message is the next bytes of the stream however chunked; otherwise no byte is lost, and the stream was not ready or has ended with too few bytes |
| ReceiverWakes.EarlyIsBounded | src/helpers/buffers/unordered_receiver.rs:128-147 | in every continuation of every run, a receiver is woken out of turn at most once for the half lap under way and once for each later one that ends before it is in reach |
| ReceiverWakes.NeverEarlyInReach | src/helpers/buffers/unordered_receiver.rs:128-147 | a receiver registered within reach of the ring is never woken out of turn |
| ReceiverWakes.MostEarlyIsExact | src/helpers/buffers/unordered_receiver.rs:134-137 | that bound is reached by a receiver that polls again whenever it can |
| ReceiverWakes.DocumentedBound | src/helpers/buffers/unordered_receiver.rs:134-137 | the documented `2d/c + 1` holds of all runs from a state if and only if the number of half laps that end before the receiver is in reach, times `c`, is at most `2d` |
| ReceiverWakes.DocumentedBoundFails | src/helpers/buffers/unordered_receiver.rs:134-137 | a state and a receiver for which the documented bound does not hold |
| UnorderedReceiver.RegisterHolds | src/helpers/buffers/unordered_receiver.rs:176-199 | registering keeps everyone kept, and rewrites a slot only for the same index |
| UnorderedReceiver.AdvanceHolds | src/helpers/buffers/unordered_receiver.rs:202-219 | advancing wakes the receiver whose turn it is, and keeps ring and overflow within their windows |
| UnorderedReceiver.NobodyOversleeps | src/helpers/buffers/unordered_receiver.rs:128-147 | in every run a parked receiver waits for a later index |
| UnorderedReceiver.OperatingState.Poll | src/helpers/buffers/unordered_receiver.rs:39-48 | the method does what `PollRx` says: who has the turn polls the stream, who is early is registered and pending, and only who is late panics |
| Channel.PollHolds | src/helpers/buffers/unordered_receiver.rs:39-48 | after every poll whoever waits is kept in the window, woken and yet to poll, or answered by the stream |
| Channel.NextIsMessage | src/helpers/buffers/unordered_receiver.rs:223-248 | with the first `n` messages read, what is read next is message `n` |
| Channel.RunIsTracked | src/helpers/buffers/unordered_receiver.rs:128-147 | in every run of polls, the window the receiver has is the one the answers imply, and whoever was polled and is not done is kept in it, woken since, or answered by the stream at their turn |
| Channel.RunIsRight | src/helpers/buffers/unordered_receiver.rs:39-48 | in every run of polls over a stream that stops anywhere, a receiver gets its own message, is told of the end only if its message is not all there, and panics only if polled after its message |
| Channel.Receive | src/helpers/buffers/unordered_receiver.rs:39-48 | polling in any order, any number of times, gives exactly the answers of `Run`, so both of the above hold of them |
| Channel.QuietMeansDelivered | src/helpers/buffers/unordered_receiver.rs:128-147 | when all receivers have been polled and, by the answers, nobody is awake or waits for the stream, every receiver has had its message |
| Channel.ReceiveAll | src/helpers/buffers/unordered_receiver.rs:223-248 | for every chunking of the whole stream, receiving in index order yields all the messages |
| Channel.EndToEnd | src/helpers/gateway/send.rs:55-79 | at every point of every run of the senders, closing or not, what `Receive` states holds of the messages sent |
| Channel.EndToEndAll | src/helpers/gateway/send.rs:55-79 | a stream that has ended delivers all the messages, by index |
| ChannelProgress.PollDecreases | src/helpers/buffers/unordered_receiver.rs:39-48 | every poll of a due receiver delivers, uses up an event of the stream, or parks somebody |
| ChannelProgress.EveryPollerReceives | src/helpers/buffers/unordered_receiver.rs:128-147 | from every point of every run over a stream with all messages, every scheduler of due receivers ends after finitely many polls with every message received |
| OrderingMpsc.OrderingMpscReceiver.Insert | src/helpers/buffers/ordering_mpsc.rs:103-128 | the bytes of the message replace those of its slot and no others; debug builds panic if and only if the index is out of range or its slot is taken |
| OrderingMpsc.OrderingMpscReceiver.Take | src/helpers/buffers/ordering_mpsc.rs:132-162 | the bytes of the contiguous run from the end position, wrapping once, are returned and their slots cleared, or nothing if it is too short |
| OrderingMpsc.WriteSlot | src/helpers/buffers/ordering_mpsc.rs:114-127 | writing the bytes of one slot leaves the messages of all others as they were |
| OrderingMpsc.TakenAt | src/helpers/buffers/ordering_mpsc.rs:133-161 | the `d`-th value taken comes from the slot of the `d`-th untaken index, across the wrap |
| OrderingMpsc.CountIsLongestRun | src/helpers/buffers/ordering_mpsc.rs:137-143 | the tail and the wrap together count the longest run of arrived indices from the first one not taken |
| OrderingMpsc.DeliverHolds | src/helpers/buffers/ordering_mpsc.rs:103-128 | a delivered message never overwrites a live slot |
| OrderingMpsc.TakeHolds | src/helpers/buffers/ordering_mpsc.rs:132-162 | a take extends the output by the next messages in index order and keeps every other slot |
| OrderingMpsc.ReorderedIsOrdered | src/helpers/buffers/ordering_mpsc.rs:55-57 | in every run the takes concatenate to the messages in index order, and everything in flight is in the allowed range |
| MpscBlocking.StepFits | src/helpers/buffers/ordering_mpsc.rs:255-271 | every step of blocked senders, of the queue and of the two halves of `incr` keeps the ring's invariant and who may push |
| MpscBlocking.StuckIffMissed | src/helpers/buffers/ordering_mpsc.rs:255-271 | in every run the sender of the message needed next waits with no notification to come, if and only if some sender of the message then needed registered after its notification |
| MpscBlocking.StuckForEver | src/helpers/buffers/ordering_mpsc.rs:266-271 | after such a miss no continuation takes another message |
| MpscBlocking.DeliveredIffNoneMissed | src/helpers/buffers/ordering_mpsc.rs:255-271 | a run at rest has delivered all messages in order if and only if there was no such miss |
| MpscBlocking.EverySchedulerRests | src/helpers/buffers/ordering_mpsc.rs:255-271 | every scheduler comes to rest after finitely many steps, with everything delivered if and only if there was no such miss |
| MpscBlocking.MissesHappen | src/helpers/buffers/ordering_mpsc.rs:266-271 | for every capacity, a run with such a miss |
| SeqJoin.SequentialFutures.CheckReady | src/seq_join.rs:126-136 | a future is polled if and only if it has not resolved; no future in the log of polls is polled after it resolved |
| SeqJoin.SequentialFutures.PollNext | src/seq_join.rs:170-198 | a poll delivers the next value in source order, ends only when nothing is left, and delivers nothing only if the front future is not ready or nothing is held and the source was not ready; at most `capacity` futures are held, and fewer only if the source was not ready or had ended; when nothing is delivered each held future has resolved or was polled in this call and was not ready, and the polls made are one for each unresolved held future, in order; when a value is delivered only the first is polled |
| SeqJoin.SequentialFutures.CheckRest | src/seq_join.rs:187-191 | every held future after the first is polled once, in order, unless it has resolved |
| SeqJoin.SequentialFutures.Fill | src/seq_join.rs:174-181 | futures are drawn in order until the capacity is reached, the source is not ready, or it has ended |
| SeqJoinDeadlock.JoinDependent | src/seq_join.rs:33-37 | futures that resolve once another has been polled: all are delivered, within two rounds each, if and only if none needs one that is `active` or more behind it or does not exist; nothing at or after one that does is ever delivered |
| SeqJoin.SequentialFutures.SizeHint | src/seq_join.rs:200-207 | the hint is exact for an exact source |
| SeqJoin.Join | src/seq_join.rs:28-50 | for every source and schedule the outputs are the source's values in order, all of them once the stream ends, and it ends when there are more rounds than source events and rounds with an unready future |
| QueryProtocol.Transition | src/query/state.rs:63-77 | which changes of state are allowed, and the error of the others |
| QueryProtocol.RunningQueries.SetState | src/query/state.rs:155-168 | the table changes as in the protocol model if and only if the transition is allowed, with its error otherwise |
| QueryProtocol.RunningQueries.Prepare | src/query/processor.rs:177-202 | the coordinator's own helper and a helper with an entry refuse and change nothing; otherwise what the second critical section finds decides, and only a preparing entry is overwritten |
| QueryProtocol.RunningQueries.NewQuery | src/query/processor.rs:133-168 | a helper with an entry refuses and changes nothing; a call that fails later leaves no entry; one that succeeds leaves its entry awaiting inputs |
| QueryProtocol.RunningQueries.Remove | src/query/state.rs:211-228 | the guard removes whatever entry is there |
| QueryProtocol.RunningQueries.ReceiveInputs | src/query/processor.rs:208-249 | the table changes as in the protocol model: only a query that awaits inputs starts running; the error tells a missing query from a wrong state |
| QueryProtocol.RunningQueries.QueryStatus | src/query/processor.rs:258-273 | a running query with a result becomes completed, and the reported status is the one kept |
| QueryProtocol.RunningQueries.BeginComplete | src/query/processor.rs:286-307 | the table changes as in the protocol model: a completed query goes, a running one is marked, others stay with an error |
| QueryProtocol.StepHolds | src/query/processor.rs:133-310 | every critical section on every helper keeps the coordination invariant, unless a completion orphans a waiting call |
| QueryRequests.BusyHelperRefuses | src/query/processor.rs:188-190 | in every run, a request checked while the helper has an entry is rejected with all tables unchanged, and its call succeeds in no continuation |
| QueryRequests.PreparedWasVacant | src/query/processor.rs:188-198 | in every run, an entry written by a `prepare` was preceded by a moment, after the request was sent, when the helper had no entry |
| QueryRequests.FailureLeavesNothing | src/query/processor.rs:143-166 | a call that ends has either succeeded, its entry awaiting inputs, or left no entry at its helper |
| QueryRequests.EntryLife | src/query/state.rs:63-77 | an entry changes only along its life: none, preparing, awaiting inputs, running, awaiting completion or completed, gone |
| QueryRequests.EntryAdvances | src/query/processor.rs:208-310 | the steps of a query move every entry that is ready for them |
| QueryProtocol.AcceptedHolds | src/query/processor.rs:192-196 | a request that slips in between check and registration keeps the invariant and takes the entry of the helper's own call |
| QueryProtocol.OverwrittenNeverSucceeds | src/query/processor.rs:162-166 | a call whose entry was taken does not succeed in any continuation that orphans nothing |
| QueryProtocol.AtMostOneCoordinator | src/query/processor.rs:121-129 | in every run that orphans nothing at most one call succeeds between completions |
| QueryProtocol.AtMostOneWithoutCompletion | src/query/processor.rs:121-129 | in every run without completions at most one call succeeds |
| QueryOrphans.OwnedHolds | src/query/processor.rs:138-143 | a preparing entry always has a waiting call, and an entry that awaits completion a guard |
| QueryOrphans.OrphaningAllowsTwo | src/query/processor.rs:282-310 | after any orphaning completion in any run, two calls on different helpers can begin and succeed with no completion between them |
| QueryOrphans.OrphaningIsExact | src/query/processor.rs:121-129 | in a run without orphans, a next step orphans a call if and only if some continuation without further orphans has two successes between completions |
| QueryOrphans.OrphansHappen | src/query/processor.rs:189-196 | a run without orphans that can be continued by an orphaning completion |
| StepTree.ConstructTree | ipa-macros/src/parser.rs:79-107 | the loop computes the parent links of the depth-delta walk, or stops where a parent is missing |
| StepTree.ParentOfChild | scripts/collect_steps.py:136-150 | the parent of a path with one more component is that path |
| StepTree.StepIsRight | ipa-macros/src/parser.rs:92-105 | one step finds the right parent if and only if the preceding path is that parent or lies below it |
| StepTree.PredecessorSharesParent | ipa-macros/src/parser.rs:89-91 | in sorted order the preceding path starts with the parent's path |
| StepTree.TreeIsRightIffNoIntruder | ipa-macros/src/parser.rs:77-107 | for every sorted prefix-closed list the walk completes with every parent right if and only if no path intrudes |
| StepTree.IntrudersExist | ipa-macros/src/parser.rs:89-91 | a sorted prefix-closed list on which the walk is wrong |
| StepTree.TreeIsRight | ipa-macros/src/parser.rs:77-107 | the tree is right whenever no character sorts before the separator |
| StepTree.ExtractIntermediateSteps | scripts/collect_steps.py:136-150 | the result is the collected paths and all paths above them, without the empty one |
| StepTree.ExtractedFits | scripts/collect_steps.py:208-212 | the extracted paths, sorted, meet the input contract of the walk |

## Left out

- Secure multiplication, shared randomness, modulus conversion, resharing, reveal and MAC validation: shares are the values they reconstruct to.
- The random-bits generator: a parameter that supplies, for any draw, an element below `p` with its bits.
- Aggregation by breakdown key and everything after capping: almost entirely calls into the protocols above.
- The processor-specific carry-less multiplications: only the portable loop is modelled.
- `usize`, `u8` and `u16` limits on indices, depths and step identifiers: numbers are unbounded.
- Memory ordering below sequential consistency, and the identity of wakers: a waker is the index of its task.
- Channel.Receive: a receiver that panics leaves the others as they were; that the original then also fails every later lock of the poisoned mutex is not modelled.
- OrderingMpsc.OrderingMpscReceiver.Take: what `take_next` does after the sender closed is not modelled; it discards buffered data by design.
- StepTree.ConstructTree: the tree is a list of parent links; child vectors, reference counts and weak links of `tree.rs` are not modelled.
- The sort in `collect_steps.py`: its result is required to be sorted.
- The order in which the mpsc queue serves its senders, and the bound of that queue.
- HTTP, TLS, configuration, telemetry, key handling and the command line.
