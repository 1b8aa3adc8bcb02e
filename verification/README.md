# Verified model of khatru-redbean

This project models the algorithms of the khatru-redbean Nostr relay that have
invariants worth stating, and proves them. It follows the program's layout: one
directory for each of its areas, one module for each concern.

- `negentropy/`: NIP-77 set reconciliation. A byte and integer codec with
  delta-coded timestamps, the sorted vector with its 256-bit accumulator, the
  session object, and the alternating run of two sessions. The run is proved
  twice: over decoded ranges (`Runs.ReconciliationIsExact`, with the message
  bound) and over message texts passed between two session objects
  (`Synchronization.Synchronize`). The argument is a conservation law: for each
  range, what is reported plus what stays open is what was open before.
- `relay/Listeners.dfy`, `relay/Relay.dfy`: the subscription registry. Each
  client's specs and each relay's listeners are in bijection, and swap-deletes
  inside the loops keep it so.
- `storage/`: the event table, the query built for a filter, and replacement of
  older versions.
- `relay/Deleting.dfy`, `relay/Tombstones.dfy`, `relay/Accepting.dfy`,
  `relay/Pipeline.dfy`: the EVENT pipeline over that table and what all its serial
  runs keep.
- `relay/Heaps.dfy`, `relay/Expiration.dfy`: NIP-40 expiration. A relay that
  handles messages and ticks in any order takes its table along a run in which
  checks look at the events themselves (`Pipeline.Relay.Serve`).
- `relay/EndOfStored.dfy`: the wait counter that announces the end of stored
  events, over all interleavings of the handler and its workers.
- `nostr/`: filters, event serialization and ids, addresses, theoretical limits.
- `monitor/`: the alert state machine and its schedule.
- `hyperloglog/`: NIP-45 sketches.

Assumptions are hypotheses of the theorems that need them. The reconciliation
theorems assume what `Settling.Peers` says: ids are distinct on each side and
determine their timestamp, timestamps t satisfy 0 <= t < 2^56 - 1, neighbouring
items of the same timestamp differ within their first 17 id bytes, and ranges
with equal fingerprints are equal; `Collisions.FingerprintsTell` derives the last
from an assumption on the hash and one on sums of ids. Hashes are arbitrary functions to 32 bytes.
The order of ids in the database is taken to be the order of their characters.

Properties that do not hold of the code are stated with the exact condition
under which they do, or with an input that shows the failure:

- `AddBytes` loses a carry on some inputs (`Accumulators.AddBytesCanMissCarry`);
  `Accumulators.SumIsExactIffCarriesAreSeen` says on which.
- A minimal bound need not separate two items that share 17 id bytes
  (`Splitting.MinimalBoundSeparates`, an input in `Splitting.MinimalBoundCanFail`).
- The database disregards tag names and empty lists, so a selected row need not
  match (`Selection.SelectionIgnoresNames`); `Selection.SelectionAgainstMatches`
  says of which filters all selected rows do. The lookup of deletion requests
  under the names "#e" and "#a" relies on names being disregarded.
- The database keeps the values of one-letter tags only, while filters may ask
  for any name, so an event that matches may be missed
  (`Selection.LongNameIsMissed`); `Selection.MatchingIsSelectedIff` says of which
  filters none is.
- Versions of an addressable event are found by their "d" value only if that is
  their only one-letter tag value (`Replacing.FindsByKeyIffWellTagged`,
  `Replacing.UntaggedVersionsPileUp`), and only then does the newest version
  always win (`Replacing.LatestIffWellTagged`). Such tags in events of one kind do
  not disturb the rows of another.
- A rejected REQ leaves the listeners of the filters before the rejected one
  (`EndOfStored.RefusalLeavesListeners`).
- `GetTheoreticalLimit` counts one "d" value per event
  (`TheoreticalLimits.SecondDTagExceedsTheLimit`); the stores on which it holds
  are those of `TheoreticalLimits.LimitHoldsIffProper`.
- A deletion request can stay beside the replaceable event it addresses
  (`TombstoneRuns.RequestIsStoredBesideIff`).
- A rejected deletion request may have deleted
  (`TombstoneRuns.RejectedRequestStillDeletes`, exactly when in
  `TombstoneRuns.RejectionStoresNothing`).
- `AddEvent` stores a deletion request without carrying it out
  (`TombstoneRuns.AddEventDeletesNothing`, exactly when that breaks the tombstones
  in `Deleting.StoringRequestKeepsTombstonesIff`).
- The initial scan for expiring events misses older ones
  (`Expiration.OneRowMoreIsMissed`, exactly when in `Expiration.ScanTracksAllIff`).

A Go panic is an outcome of the model where it can be reached: `Err` in
`Reconcile`, `Panicked` for a "d" tag without a value, and a precondition where
the code leaves the check to its callers.

## Model

| member | source | states |
|---|---|---|
| Items.LessIsTotal | internal/nostr/nip77/negentropy/types.go:39-44 | `ItemCompare` is a total order: of two items exactly one is less, unless they are equal |
| Items.LessIsTransitive | internal/nostr/nip77/negentropy/types.go:39-44 | the order chains, strictly and weakly |
| Items.CompareIsLexicographic | internal/nostr/nip77/negentropy/types.go:39-44 | ids compare by their first different character, a prefix before the whole |
| Items.TimeComesFirst | internal/nostr/nip77/negentropy/types.go:39-44 | items compare by time, and by id within one time |
| Items.LowerBoundSplits | internal/nostr/nip77/negentropy/storage/vector/vector.go:63-66 | in a sorted vector every item from the lower bound on is at or above the bound, every item before it is below |
| Items.BetweenIsSlice | internal/nostr/nip77/negentropy/storage/vector/vector.go:63-66 | the items between two bounds are the slice between their lower bounds |
| HexIO.HexByteRoundTrip | internal/nostr/nip77/negentropy/hex.go:33-36 | a byte written in hexadecimal is read back and the rest of the stream is untouched |
| HexIO.HexDigitsAscend | internal/nostr/nip77/negentropy/hex.go:78-81 | the digits written are lower case, in their order |
| HexIO.StringHexReader.ReadHexByte | internal/nostr/nip77/negentropy/hex.go:23-36 | takes one byte off the unread text, or fails when it is missing or not hexadecimal |
| HexIO.StringHexReader.ReadString | internal/nostr/nip77/negentropy/hex.go:38-44 | takes that many characters off the unread text or fails at its end |
| HexIO.StringHexWriter.WriteBytes | internal/nostr/nip77/negentropy/hex.go:78-81 | appends the hexadecimal text of the bytes |
| VarInt.VarIntRoundTrip | internal/nostr/nip77/negentropy/encoding.go:95-142 | for all 0 <= n < 2^56 reading a written integer gives it back and leaves the rest of the stream |
| VarInt.EncodeVarInt | internal/nostr/nip77/negentropy/encoding.go:122-142 | the buffer loop fills in base-128 digits, most significant first, high bit on all but the last, in at most 8 bytes |
| VarInt.LeadingRoundTrip | internal/nostr/nip77/negentropy/encoding.go:98-108 | digits with the high bit accumulate to the number they spell, up to 2^63 |
| VarInt.WrapsModulo | internal/nostr/nip77/negentropy/encoding.go:98-108 | the accumulator wraps around: it keeps the number modulo 2^64 |
| Accumulators.SumIsExactIffCarriesAreSeen | internal/nostr/nip77/negentropy/storage/accumulator.go:25-42 | adding words is addition modulo 2^(32n) if and only if no word but the last has both sides all ones with a carry coming in |
| Accumulators.AddBytesCanMissCarry | internal/nostr/nip77/negentropy/storage/accumulator.go:33-36 | an input on which the sum is wrong: twice 2^64 - 1 |
| Accumulators.Ledger | internal/nostr/nip77/negentropy/storage/accumulator.go:28-41 | conservation: result, carry out and missed carries add up to the true sum |
| Accumulators.LedgerBounds | internal/nostr/nip77/negentropy/storage/accumulator.go:28-41 | the missed carries are worth less than the modulus, and nothing exactly when no carry is missed |
| Accumulators.OneWord | internal/nostr/nip77/negentropy/storage/accumulator.go:33-36 | the overflow test sees every carry but the one out of two words of all ones |
| Accumulators.Accumulator.Reset | internal/nostr/nip77/negentropy/storage/accumulator.go:15-19 | the first 32 bytes become zero |
| Accumulators.Accumulator.AddWord | internal/nostr/nip77/negentropy/storage/accumulator.go:28-41 | one turn of the loop: the wrapped word is stored, bytes above it are untouched, the carry is as tested |
| Accumulators.Accumulator.AddBytes | internal/nostr/nip77/negentropy/storage/accumulator.go:25-42 | the in-place loop leaves the sum of the eight words with running carry |
| FingerprintSums.AddIdsIsSum | internal/nostr/nip77/negentropy/storage/vector/vector.go:68-78 | folding `AddBytes` over a range in which no step misses a carry gives the sum of all ids modulo 2^256, as NIP-77's fingerprint algorithm asks |
| FingerprintSums.DecodeIntoIsIdBytes | internal/nostr/nip77/negentropy/storage/vector/vector.go:71-75 | hex-decoding a well-formed id into the reused buffer gives the id's bytes, whatever the buffer held |
| Collisions.FingerprintIsHash | internal/nostr/nip77/negentropy/storage/vector/vector.go:68-78 | a fingerprint is the first 16 bytes of the hash of the sum of the ids modulo 2^256 and the count, in hexadecimal, for every range in which no step misses a carry |
| Collisions.FingerprintsTell | internal/nostr/nip77/negentropy/storage/vector/vector.go:68-78 | fingerprints of the ranges of two vectors do not collide if the hash tells apart what is hashed for them and equally many ids with one sum are the same items |
| Collisions.PeersByHash | internal/nostr/nip77/negentropy/storage/vector/vector.go:68-78 | so the reconciliation theorems hold under these assumptions on hash and sums |
| Vectors.InsertionIsOrdered | internal/nostr/nip77/negentropy/storage/vector/vector.go:38-44 | inserting into a sorted vector keeps it sorted |
| Vectors.SortItems | internal/nostr/nip77/negentropy/storage/vector/vector.go:43-43 | the result of sealing is sorted and a permutation of what was inserted |
| Vectors.Vector.Insert | internal/nostr/nip77/negentropy/storage/vector/vector.go:27-34 | appends one item |
| Vectors.Vector.Seal | internal/nostr/nip77/negentropy/storage/vector/vector.go:38-44 | sorts the items by `ItemCompare` |
| Vectors.Vector.FindLowerBound | internal/nostr/nip77/negentropy/storage/vector/vector.go:63-66 | binary search returns the lower bound in the window |
| Vectors.Vector.SumIds | internal/nostr/nip77/negentropy/storage/vector/vector.go:69-75 | resets the accumulator and feeds it the decoded ids of the range |
| Vectors.Vector.GetFingerprint | internal/nostr/nip77/negentropy/storage/accumulator.go:44-49 | the first 16 bytes of the hash of sum and count, in hexadecimal |
| Vectors.Vector.Fingerprint | internal/nostr/nip77/negentropy/storage/vector/vector.go:68-78 | the fingerprint of a range as a function of its items |
| Messages.BoundRoundTrip | internal/nostr/nip77/negentropy/encoding.go:34-75 | a delta-coded bound reads back with the rest untouched, infinity included |
| Messages.PayloadRoundTrip | internal/nostr/nip77/negentropy/negentropy.go:136-168 | mode and payload of a range read back |
| Messages.RangeRoundTrip | internal/nostr/nip77/negentropy/negentropy.go:123-168 | one range reads back and every number in it fits its 56 bits |
| Messages.SkipSpelledOut | internal/nostr/nip77/negentropy/negentropy.go:113-121 | a skip, digit by digit: time field, prefix length, mode |
| Messages.FingerprintSpelledOut | internal/nostr/nip77/negentropy/negentropy.go:123-150 | a fingerprint range, digit by digit |
| Messages.IdListSpelledOut | internal/nostr/nip77/negentropy/negentropy.go:154-221 | an id list to the end, digit by digit |
| Messages.ModeTellsThePayload | internal/nostr/nip77/negentropy/negentropy.go:127-168 | the mode, cut down to a byte, tells the payload, and any other than the three is an error |
| Messages.MessageRoundTrip | internal/nostr/nip77/negentropy/encoding.go:9-75 | a message with non-decreasing timestamps decodes to exactly the ranges encoded |
| Messages.EncodeAppend | internal/nostr/nip77/negentropy/encoding.go:53-75 | delta coding composes: two lists written one after the other are the encoding of their concatenation |
| Messages.IdsRoundTrip | internal/nostr/nip77/negentropy/negentropy.go:160-168 | a list of ids reads back |
| Splitting.MinimalBoundSeparates | internal/nostr/nip77/negentropy/encoding.go:77-93 | the minimal bound is at or below the next item, and strictly above the previous one if and only if the two differ in timestamp or within 17 id bytes |
| Splitting.MinimalBoundCanFail | internal/nostr/nip77/negentropy/encoding.go:82-92 | an input: two ids that differ in their last digit get a bound at or below both |
| Splitting.MinimalBoundIsMinimal | internal/nostr/nip77/negentropy/encoding.go:77-93 | no prefix of fewer bytes is above the previous item |
| Splitting.SharedBytes | internal/nostr/nip77/negentropy/encoding.go:82-89 | the count of leading bytes in common, stopping at 16 |
| Splitting.EdgeInClosedForm | internal/nostr/nip77/negentropy/negentropy.go:260-270 | the running index of the bucket loop in closed form |
| Splitting.EdgeSteps | internal/nostr/nip77/negentropy/negentropy.go:260-270 | the edges run from lower to upper and each bucket has at least two items and at most one more than the quotient |
| Splitting.FewAreListed | internal/nostr/nip77/negentropy/negentropy.go:250-258 | fewer than 32 items are listed |
| Splitting.ManyAreCut | internal/nostr/nip77/negentropy/negentropy.go:259-294 | 32 items or more are cut into 16 ranges, each with the fingerprint of its bucket, the minimal bound between neighbours, and the bound of the whole for the last |
| Honesty.BucketsPartition | internal/nostr/nip77/negentropy/negentropy.go:247-295 | the buckets partition the range, sizes differ by at most one, each bound cuts the sender's own vector exactly at its edge, and the bounds strictly increase |
| Honesty.SplitAnswers | internal/nostr/nip77/negentropy/negentropy.go:247-295 | a split covers its range with honest ranges whose level is one lower |
| Honesty.BucketIsGood | internal/nostr/nip77/negentropy/negentropy.go:264-293 | each bucket carries the sender's fingerprint of exactly its items |
| Honesty.LevelsAreLogarithmic | internal/nostr/nip77/negentropy/negentropy.go:250-261 | a range of n items can be split at most about log8(n/4) times |
| Honesty.GoodIsWellFormed | internal/nostr/nip77/negentropy/encoding.go:53-75 | honest messages of vectors within the size and time limits can be encoded |
| Differences.ListedHavesAreTheDifference | internal/nostr/nip77/negentropy/negentropy.go:170-183 | the ids of ours that are not listed are our side of the difference in that range |
| Differences.ListedHaveNotsAreTheDifference | internal/nostr/nip77/negentropy/negentropy.go:185-190 | what is left of the list is their side of the difference in that range |
| Differences.EqualSidesHaveNoDifference | internal/nostr/nip77/negentropy/negentropy.go:147-148 | where both sides hold the same items there is nothing to tell |
| Differences.IdsBetweenSplits | internal/nostr/nip77/negentropy/negentropy.go:133-134 | the difference over a range is the sum of the differences over its parts |
| Differences.OpenOfCover | internal/nostr/nip77/negentropy/negentropy.go:261-293 | a list of ranges that covers an interval leaves exactly the difference of that interval open |
| Reconciling.StepAddsDelta | internal/nostr/nip77/negentropy/negentropy.go:111-241 | one turn of the loop adds to what was produced before, independently of it |
| Settling.StepSettles | internal/nostr/nip77/negentropy/negentropy.go:133-241 | conservation for one range in both directions: what is told plus what stays open is what was open |
| Settling.StepOverFingerprint | internal/nostr/nip77/negentropy/negentropy.go:140-152 | a matching fingerprint leaves nothing open, any other is answered by a split of the same range |
| Reconciling.SkipsAreCoalesced | internal/nostr/nip77/negentropy/negentropy.go:113-121 | in the reply to any message no skip follows another and none comes last |
| Settling.StepOverIdList | internal/nostr/nip77/negentropy/negentropy.go:154-221 | a list at the client is told, at the server answered by its own list |
| Settling.FingerprintsAgree | internal/nostr/nip77/negentropy/negentropy.go:145-148 | equal fingerprints mean equal ranges, under the assumption that these do not collide |
| Runs.AnswerSettles | internal/nostr/nip77/negentropy/negentropy.go:87-245 | a whole message: the reply is honest one level lower, and told plus still open is what was open |
| Runs.ServerIsSilent | internal/nostr/nip77/negentropy/negentropy.go:178-193 | a server never reports ids |
| Runs.ClientFinishes | internal/nostr/nip77/negentropy/negentropy.go:78-82 | below the last level the client has nothing left to say |
| Runs.RunTells | internal/nostr/nip77/negentropy/negentropy.go:58-245 | an alternating run from any honest message tells exactly the two differences it leaves open, within its message bound |
| Runs.OpeningIsGood | internal/nostr/nip77/negentropy/negentropy.go:58-67 | the opening message is honest and covers everything |
| Runs.OpeningIsOpen | internal/nostr/nip77/negentropy/negentropy.go:58-67 | the opening message leaves the whole difference open |
| Runs.ReconciliationIsExact | internal/nostr/nip77/negentropy/negentropy.go:58-245 | a complete run ends with haves = ids(A) - ids(B) and haveNots = ids(B) - ids(A), each id once, in at most levels(A) + levels(B) + 2 messages, never more than the number of items of both sides plus 2 |
| Coalescing.CoalescingKeepsTreatment | internal/nostr/nip77/negentropy/negentropy.go:106-121 | what is decoded of the message with coalesced skips gives every point of the order the same treatment as the uncoalesced ranges, an unwritten end read as skip; its bounds and timestamps never decrease |
| Coalescing.ReplyFits | internal/nostr/nip77/negentropy/negentropy.go:133-221 | the reply to one range can be encoded after the bound before it |
| Coalescing.ReplyRises | internal/nostr/nip77/negentropy/negentropy.go:133-221 | the bounds of a reply never decrease and end at the bound answered |
| NegentropySession.ReadVarInt | internal/nostr/nip77/negentropy/encoding.go:95-111 | reads what decoding the unread text gives, 64-bit wrap-around included |
| NegentropySession.WriteVarInt | internal/nostr/nip77/negentropy/encoding.go:113-120 | appends the encoding, and panics exactly outside 0 <= n < 2^56 |
| NegentropySession.Negentropy.ReadTimestamp | internal/nostr/nip77/negentropy/encoding.go:9-32 | undoes the delta against the cached timestamp, and 0 is infinity |
| NegentropySession.Negentropy.ReadBound | internal/nostr/nip77/negentropy/encoding.go:34-51 | reads one bound off the stream and moves the cached timestamp, or fails |
| NegentropySession.Negentropy.WriteTimestamp | internal/nostr/nip77/negentropy/encoding.go:53-69 | writes the delta plus one and caches the timestamp |
| NegentropySession.Negentropy.WriteBound | internal/nostr/nip77/negentropy/encoding.go:71-75 | appends the encoded bound, and panics exactly when a number in it does not fit |
| NegentropySession.Negentropy.GetMinimalBound | internal/nostr/nip77/negentropy/encoding.go:77-93 | computes the minimal bound |
| NegentropySession.Negentropy.SplitRange | internal/nostr/nip77/negentropy/negentropy.go:247-295 | appends the encoding of the split and moves the cached timestamp, or panics exactly when it does not fit |
| NegentropySession.Negentropy.SplitIntoBuckets | internal/nostr/nip77/negentropy/negentropy.go:260-294 | the bucket loop appends the encoding of the sixteen buckets |
| NegentropySession.Negentropy.CompareIds | internal/nostr/nip77/negentropy/negentropy.go:170-183 | reports our unlisted ids in order at the client only and leaves their unmatched ids |
| NegentropySession.Negentropy.TellHaveNots | internal/nostr/nip77/negentropy/negentropy.go:185-190 | reports each remaining id once, in any order |
| NegentropySession.Negentropy.HandleRange | internal/nostr/nip77/negentropy/negentropy.go:136-225 | the switch on one range: output, reported ids and skipping flag |
| NegentropySession.Negentropy.AnswerRange | internal/nostr/nip77/negentropy/negentropy.go:111-241 | one turn of the loop over the whole state, buffers included |
| NegentropySession.Negentropy.Reconcile | internal/nostr/nip77/negentropy/negentropy.go:69-245 | for every input string: the version check, all decoding errors, the reply text, the reported ids and the end of the session |
| NegentropySession.Negentropy.Start | internal/nostr/nip77/negentropy/negentropy.go:58-67 | the opening message of a client |
| Synchronization.GoodMessageTravels | internal/nostr/nip77/negentropy/negentropy.go:69-85 | what one side writes of an honest message the other decodes to the same ranges |
| Synchronization.Deliver | internal/nostr/nip77/negentropy/negentropy.go:69-85 | handing a message text to a session has the effect of answering its ranges |
| Synchronization.Exchange | internal/nostr/nip77/negentropy/negentropy.go:69-85 | two sessions passing texts back and forth terminate with both differences reported |
| Synchronization.Synchronize | internal/nostr/nip77/negentropy/negentropy.go:58-85 | two fresh sessions, started and run to the end over message texts, report exactly both differences |
| Listeners.DroppedSpecLeavesHole | internal/relay/engine/listener.go:70-76 | swap-deleting a spec leaves exactly its listener unclaimed, and it did point at a listener of that client and id |
| Listeners.PassedSpecLeavesHole | internal/relay/engine/listener.go:106-111 | passing over a spec of a leaving client does the same |
| Listeners.MovedSpecIsFoundIff | internal/relay/engine/listener.go:86-92 | the search for the spec of the moved listener fails, a panic, exactly when a relay that is routed to serves that client itself |
| Listeners.MovedSpecIsFound | internal/relay/engine/listener.go:86-92 | where no such relay is, it never returns -1, stale specs notwithstanding |
| Listeners.MovingTheLastClosesHole | internal/relay/engine/listener.go:81-95 | moving the last listener into the hole and re-indexing its spec restores the bijection |
| Listeners.UnlistingClosesHole | internal/relay/engine/listener.go:81-95 | swap-delete of a listener restores the bijection in every case |
| Listeners.StaleIndexIsFree | internal/relay/engine/listener.go:116-118 | writing -1 into a spec already dealt with changes nothing that counts |
| Listeners.SwapDeleteRemovesOne | internal/relay/engine/listener.go:74-75 | swap-delete takes out exactly one element |
| Listeners.RemovingRemoves | internal/relay/engine/listener.go:70-97 | one turn of the downward loop keeps the invariant |
| Listeners.RemovingEnds | internal/relay/engine/listener.go:70-97 | after it no listener of that client and id is left and all others are |
| Listeners.LeavingRemoves | internal/relay/engine/listener.go:106-130 | one turn of the upward loop keeps the invariant |
| Listeners.LeavingEnds | internal/relay/engine/listener.go:101-133 | after it no listener of the client is left and all others are |
| Listeners.NotifiedAreThoseThatWant | internal/relay/engine/listener.go:136-151 | of each entry exactly the matching, non-prevented occurrences are notified |
| Listeners.NotifiedInOrder | internal/relay/engine/listener.go:136-151 | they are notified in the order of the list |
| Listeners.CancelsAreOfThatName | internal/relay/engine/listener.go:70-73 | of each spec of that name the context is cancelled, the last one first |
| Registry.Relay.Connect | internal/relay/engine/handlers.go:84-84 | a new client has no subscriptions |
| Registry.Relay.AddListener | internal/relay/engine/listener.go:36-60 | one spec and one listener are appended, pointing at each other; nothing happens for a client that has gone |
| Registry.Relay.RemoveListenerId | internal/relay/engine/listener.go:64-99 | on every relay exactly the entries of that client and id go, their contexts are cancelled last first, others keep their subscriptions, and specs and listeners stay in bijection |
| Registry.Relay.RemoveClientAndListeners | internal/relay/engine/listener.go:101-133 | on every relay exactly that client's entries go and the client with them; the bijection is kept |
| Registry.Relay.Unlist | internal/relay/engine/listener.go:81-95 | the listener list and the re-indexed spec after one swap-delete |
| Registry.Relay.NotifyListeners | internal/relay/engine/listener.go:136-151 | writes to and counts the listeners whose filter matches and whom no hook prevents, each as often as it is listed |
| Selection.SelectionAgainstMatches | internal/storage/postgres/query.go:74-189 | every row a filter selects matches it if and only if it selects nothing, or has no empty list and asks for no tag |
| Selection.MatchingIsSelectedIff | internal/storage/postgres/query.go:74-189 | every event that matches a filter is selected if and only if the filter matches nothing, or each of its tag names that is not of one letter has all values of some one-letter name of it |
| Selection.MatchingIsSelected | internal/storage/postgres/query.go:74-189 | under that condition no matching event is missed; filters with one-letter tag names only all meet it |
| Selection.LongNameIsMissed | internal/storage/postgres/init.go:37-52 | an input: the filter for the tag "emoji" never selects the events it matches |
| Selection.RenamedIsSelected | internal/storage/postgres/query.go:131-132 | any selected event, its tags under a letter that differs from a given name, is still selected and does not match |
| Selection.SelectableIsSelected | internal/storage/postgres/query.go:113-142 | a filter without empty tag sets and with since no later than until selects some event |
| Selection.SelectionIgnoresNames | internal/storage/postgres/query.go:131-132 | a value under another one-letter tag is selected although the filter does not match |
| Selection.LongNamesAreLookedUpToo | internal/relay/engine/adding.go:43-46 | the lookup under the name "#e" selects by value, although `Matches` would find no such tag |
| EventTable.TagValues | internal/storage/postgres/init.go:37-52 | the generated column holds exactly the values of one-letter tags |
| EventTable.OlderIsRankedLater | internal/storage/internal/helpers.go:13-16 | "older" is the reverse of the order of query results |
| EventTable.IsOlderIsTotal | internal/storage/internal/helpers.go:13-16 | of two events with different ids exactly one is older |
| EventTable.RankedListsAll | internal/storage/postgres/query.go:183-187 | the result order lists every selected row, each older than the one before |
| EventTable.First | internal/storage/postgres/query.go:183-187 | the first row returned is selected and newer than every other selected row |
| EventTable.ResultHoldsTheNewest | internal/storage/postgres/query.go:183-187 | a query returns a selected row if and only if fewer selected rows than the limit are newer, and in order |
| Postgres.AnyNameFirst | internal/storage/postgres/query.go:114-125 | the total of tag values does not depend on the order in which the tag map is visited |
| Postgres.PostgresBackend.constructor | internal/storage/postgres/init.go:63-77 | an unset limit gets its default: 100 rows, 500 ids, 500 authors, 10 kinds, 100 tag values |
| Postgres.PostgresBackend.QueryEventsSql | internal/storage/postgres/query.go:74-189 | the conditions built hold of an event exactly when it is selected, and the query fails exactly when a limit is exceeded or a tag set is empty |
| Postgres.PostgresBackend.TagConditions | internal/storage/postgres/query.go:114-133 | one condition per tag name, in whatever order the map yields them |
| Postgres.PostgresBackend.QueryEvents | internal/storage/postgres/query.go:14-47 | the first rows in order, as many as the filter asks for and never more than the backend allows, and all of them if fewer |
| Postgres.PostgresBackend.SaveEvent | internal/storage/postgres/save.go:11-29 | inserts unless the id exists, and says which |
| Postgres.PostgresBackend.SmallFilterIsAccepted | internal/storage/postgres/query.go:74-133 | the relay's own queries never exceed a limit |
| Postgres.PostgresBackend.ReplaceEvent | internal/storage/postgres/replace.go:12-47 | the new table and outcome: an older version goes, a newer one stays |
| Replacing.FindsByKeyIffWellTagged | internal/storage/postgres/replace.go:16-19 | the query before replacing looks under the right key for all newcomers if and only if the stored event's one-letter tag values are its "d" value alone |
| Replacing.LastWriterWins | internal/storage/postgres/replace.go:12-47 | after any sequence of calls on an empty table the rows of a kind are exactly the newest event of each key, if the events of that kind are well tagged; the others may be anything |
| Replacing.OutcomeTells | internal/storage/postgres/replace.go:26-47 | the outcome is "stored" exactly when no event submitted for the key was as new, else "superseded"; only events of its kind must be well tagged |
| Replacing.LatestIffWellTagged | internal/storage/postgres/replace.go:12-47 | an event is well tagged if and only if, whatever event is submitted after it, the rows of its kind are the newest of each key |
| Replacing.OrderOfArrivalIsIrrelevant | internal/storage/postgres/replace.go:12-47 | the same events of a kind in any order and number, among any of other kinds, leave the same rows of that kind |
| Replacing.OrderLeavesTheSameTable | internal/storage/postgres/replace.go:12-47 | where all are well tagged the whole table is the same |
| Replacing.UntaggedVersionsPileUp | internal/storage/postgres/replace.go:17-19 | without a "d" tag two versions of an addressable event both stay |
| Addresses.AddressReadsBack | internal/relay/engine/adding.go:85-85 | the address checked for deletion is read back by a deletion request into the same kind, key and identifier |
| Addresses.ParsesIff | internal/relay/engine/deleting.go:23-36 | a text is an address if and only if it is a number, a key without a colon and anything, between colons |
| Addresses.ItoaIsShortest | internal/nostr/event.go:74-78 | no text that is read as the number is shorter than what is written, and no other is as short |
| Addresses.AtoiReadsBack | internal/relay/engine/deleting.go:26-29 | a formatted 64-bit kind parses to itself |
| Deleting.DeletionRemovesOwnRows | internal/relay/engine/deleting.go:12-89 | a deletion request removes rows of its own author only and changes no other |
| Deleting.DeletionChangesIff | internal/relay/engine/deleting.go:12-89 | it changes the table if and only if the first row its tags find is its author's |
| Deleting.DeletionRemovesOnlyTheAskedFor | internal/relay/engine/deleting.go:19-39 | a row that goes is named by an "e" tag, or an "a" tag has its kind, its key, an identifier among its one-letter tag values and a time no earlier than its own |
| Deleting.OtherTagsDeleteNothing | internal/relay/engine/deleting.go:38-39 | tags of any other name delete nothing |
| Deleting.OneTagDeletes | internal/relay/engine/deleting.go:19-89 | one tag removes the newest row it asks for, fails if that is another author's, and does nothing without one |
| Deleting.TagsInTurn | internal/relay/engine/deleting.go:12-20 | the tags are dealt with in turn, up to the one that fails |
| Deleting.TargetIsAskedFor | internal/relay/engine/deleting.go:19-55 | what a tag finds it names, or it is the newest row its address asks for; it finds nothing only if no row is asked for |
| Deleting.DeletionRemovesTheNamed | internal/relay/engine/deleting.go:19-21 | if it succeeds, no event it names in an "e" tag is left |
| Deleting.DeletionFailsOnAnothers | internal/relay/engine/deleting.go:57-80 | if it fails, one of its tags asks for a remaining event of another author |
| Deleting.NormalKeepsTombstones | internal/relay/engine/adding.go:40-59 | the check by id keeps out what a stored deletion request names |
| Deleting.BlockedAsDeletedIff | internal/relay/engine/adding.go:40-104 | an event is blocked as deleted if and only if a stored request, whoever wrote it, lists its id in a one-letter tag or, for kinds that are replaced, one as new as it lists its address |
| Deleting.AnothersRequestBlocks | internal/relay/engine/adding.go:40-59 | an input: a request by another author, sent first, keeps an event out |
| Deleting.HandledKeepsTombstones | internal/relay/engine/handlers.go:262-277 | one EVENT message keeps: no stored deletion request names another stored event |
| Deleting.HandledOnlyTouchesOwnRows | internal/relay/engine/handlers.go:262-277 | one EVENT message removes only rows of its author and brings in nothing but its event |
| Accepting.NewestIsKept | internal/relay/engine/adding.go:106-159 | an accepted event of a kind that is replaced is stored if and only if every stored event of its key is itself or older; then those are gone, other rows are as before, and the outcome tells |
| Accepting.RegularIsStored | internal/relay/engine/adding.go:61-73 | an accepted event of a regular kind is stored unless its id is there, and the outcome tells |
| Accepting.RequestIsStoredToo | internal/relay/engine/handlers.go:262-277 | a deletion request is stored after it has deleted, unless it failed, is rejected, is listed by another or is there |
| Accepting.OthersAreNotStored | internal/relay/engine/handlers.go:262-281 | any other event changes nothing, and is answered as rejected, deleted or passed on |
| Accepting.RunsKeepTheNewest | internal/relay/engine/adding.go:106-159 | after every serial run the row of a key is the newest of its events that were accepted since its row last went, and there is one if and only if there was such an event |
| Accepting.RowsGoByRequestOrCheck | internal/relay/engine/handlers.go:262-281 | the row of a key goes only with a deletion request of its author or when it expires |
| TombstoneRuns.RunsKeepTombstones | internal/relay/engine/handlers.go:262-277 | in every serial run of EVENT messages and expiration checks no stored deletion request names another stored event, and no ephemeral event is stored |
| TombstoneRuns.RunsKeepOneRowPerKey | internal/relay/engine/adding.go:106-117 | in every serial run a replaceable kind, or an addressable one whose events are well tagged, has one row per key |
| TombstoneRuns.RunsKeepAddressTombstones | internal/relay/engine/adding.go:75-104 | in every serial run, for every kind whose addressable events are well tagged and so for every replaceable kind, no stored deletion request covers, by address and time, a stored version of that kind that the table can find |
| TombstoneRuns.RunsLeaveNoAddressable | internal/relay/engine/adding.go:75-104 | of an addressable kind whose events are well tagged none is left at all |
| TombstoneRuns.RequestIsStoredBesideIff | internal/relay/engine/deleting.go:21-55 | a request for a stored replaceable event by its address is stored, and the event stays beside it if and only if its identifier is not among its one-letter tag values |
| TombstoneRuns.TargetOfReplaceable | internal/relay/engine/deleting.go:21-55 | an address of a replaceable kind asks for the one version exactly if the identifier is among its one-letter tag values |
| TombstoneRuns.DeletionRemovesTheAddressed | internal/relay/engine/deleting.go:21-37 | a successful deletion request leaves no addressed version up to its time that the table can find, where the keys of that kind are unique and well tagged |
| TombstoneRuns.TargetOfAddress | internal/relay/engine/deleting.go:21-50 | what an address asks for is its version, if the table can find it |
| TombstoneRuns.AddEventDeletesNothing | internal/relay/engine/adding.go:13-24 | an input: a request added by the relay's own code is stored beside what it names |
| Deleting.StoringRequestKeepsTombstonesIff | internal/relay/engine/adding.go:13-24 | on every table, a request added so keeps the tombstones if and only if it is rejected, listed by a stored request, stored already, or names nothing that is stored |
| TombstoneRuns.RejectionStoresNothing | internal/relay/engine/handlers.go:262-277 | a rejected event stores nothing, and changes the table if and only if it is a deletion request and the first row its tags find is its author's |
| TombstoneRuns.RejectedRequestStillDeletes | internal/relay/engine/handlers.go:262-277 | a deletion request that the hooks reject has already deleted |
| Pipeline.Relay.HandleDeleteRequest | internal/relay/engine/deleting.go:12-89 | the loop over tags leaves the table of the rule; every stored event that expires stays tracked, and what is deleted has no entry left if no id had two |
| Pipeline.Relay.HandleNormal | internal/relay/engine/adding.go:29-160 | rejection, both deletion checks, storing or replacing: table and outcome, and exactly a written event that expires gets an entry |
| Pipeline.Relay.ReplaceByHand | internal/relay/engine/adding.go:119-159 | without a replacer the relay's own steps have the effect of `ReplaceEvent` |
| Pipeline.Relay.HandleEvent | internal/relay/engine/handlers.go:257-281 | the whole pipeline: table, outcome and tracking after one event |
| Pipeline.FirstRejectionIs | internal/relay/engine/adding.go:29-38 | the first hook that has something against the event decides, with a message of its own or the default one |
| Pipeline.Relay.HandleTick | internal/relay/engine/expiration.go:52-69 | if all that expires is tracked, or the first scan is still to come and sees all rows, a tick removes exactly the events that are due |
| Pipeline.Relay.Serve | internal/relay/engine/expiration.go:52-142 | from a table that is tracked, or that the first scan is still to see whole, any sequence of EVENT messages and ticks takes the table along the run of the same steps, in which a check removes exactly the due events; after a tick none is left |
| Pipeline.Relay.DTag | internal/relay/engine/adding.go:77-83 | the first "d" tag; a panic when it has no value |
| TheoreticalLimits.GetTheoreticalLimit | internal/nostr/filter.go:179-215 | computes the bound or -1 |
| TheoreticalLimits.NeverMoreThanTheLimit | internal/nostr/filter.go:173-215 | where no two stored events share an id, a replaceable key or an address, no filter matches more than its limit |
| TheoreticalLimits.MatchingRespectsTheLimit | internal/nostr/filter.go:173-215 | for one filter it is enough that the events it matches share no id if it lists ids, else no replaceable key and no address |
| TheoreticalLimits.LimitHoldsIffProper | internal/nostr/filter.go:173-215 | no filter matches more events of a store than its limit if and only if no two of them share an id, kind and author of a replaceable kind, or kind, author and any valued "d" tag of an addressable kind |
| Tightness.LimitIsAttained | internal/nostr/filter.go:173-215 | a filter that matches anything and whose lists do not repeat themselves matches as many events of some store as its limit |
| Tightness.NoLimitNoBound | internal/nostr/filter.go:173-215 | a filter without a limit matches any number of events of some proper store, unless it mixes replaceable and addressable kinds with "d" values |
| Tightness.MixedKindsAreBounded | internal/nostr/filter.go:186-215 | mixed kinds have a bound although no limit is computed |
| TheoreticalLimits.SharedKeyExceeds | internal/nostr/filter.go:179-215 | any two events that share one of these exceed the limit of some filter |
| TheoreticalLimits.NoMoreThanKeys | internal/nostr/filter.go:179-215 | things with different keys are no more than there are keys |
| TheoreticalLimits.SecondDTagExceedsTheLimit | internal/nostr/filter.go:201-211 | with a second "d" tag two events match where the limit is one |
| TheoreticalLimits.RunsRespectTheLimit | internal/nostr/filter.go:179-215 | what any serial run has stored respects the limit of a filter, if it lists ids or the addressable kinds it lists are well tagged |
| Heaps.RootIsLeast | internal/relay/engine/expiration.go:18-22 | in a heap nothing expires before the first entry |
| Heaps.UpStep | internal/relay/engine/expiration.go:20-26 | one step of sifting up keeps all but one relation in order |
| Heaps.DownStep | internal/relay/engine/expiration.go:20-34 | one step of sifting down keeps all but one relation in order |
| Heaps.FilledHole | internal/relay/engine/expiration.go:144-155 | the last entry put in place of another may only be out of order there |
| Expiration.ExpirationManager.Push | internal/relay/engine/expiration.go:24-26 | keeps the heap and adds one entry |
| Expiration.ExpirationManager.Remove | internal/relay/engine/expiration.go:144-155 | keeps the heap and takes out exactly the named entry |
| Expiration.ExpirationManager.Init | internal/relay/engine/expiration.go:93-93 | makes a heap of the same entries |
| Expiration.ExpirationManager.TrackEvent | internal/relay/engine/expiration.go:133-142 | adds an entry exactly for an event that expires |
| Expiration.ExpirationIsFirst | internal/relay/engine/expiration.go:133-142 | the first "expiration" tag with a value tells the time, -1 without one or if it is no number |
| Expiration.ExpirationManager.RemoveEvent | internal/relay/engine/expiration.go:144-155 | takes out one entry of that id, if there is one |
| Expiration.ExpirationManager.InitialScan | internal/relay/engine/expiration.go:71-94 | adds entries for what one query returns; says when that tracks everything |
| Expiration.ExpirationManager.CheckExpiredEvents | internal/relay/engine/expiration.go:96-131 | takes out exactly the due entries, in the order they expire, with their events, and ends |
| Expiration.TakesTheRoot | internal/relay/engine/expiration.go:103-110 | each entry taken out expires no later than any that is left |
| Expiration.NothingDueIsLeft | internal/relay/engine/expiration.go:96-131 | after a check no tracked event that is due is stored, and the rest is still tracked |
| Expiration.CheckRemovesTheDue | internal/relay/engine/expiration.go:96-131 | if an id stands for one event and all that expires is tracked, a check removes the due events, all of them and no other |
| Expiration.ExpirationManager.Tick | internal/relay/engine/expiration.go:52-69 | a scan the first time and a check each time, as one effect on entries and table |
| Expiration.FullScanTracksAll | internal/relay/engine/expiration.go:77-91 | a scan that returns every row leaves none untracked |
| Expiration.ScanTracksAllIff | internal/relay/engine/expiration.go:71-94 | after a scan every expiring event is tracked if and only if each one not tracked before has fewer stored events newer than it than the query limit |
| Expiration.ReturnedIffFewAreNewer | internal/relay/engine/expiration.go:77-91 | the scan sees an event if and only if fewer than the query limit are newer |
| Expiration.LargerTableIsMissed | internal/relay/engine/expiration.go:71-94 | of any table larger than the query limit, in which all expire and none is tracked, the scan misses one |
| Expiration.OneRowMoreIsMissed | internal/relay/engine/expiration.go:71-94 | such a table for every limit, one row larger |
| Serialization.ReadsStringBack | internal/nostr/helpers.go:54-90 | an escaped string ends itself and a JSON reader gets the string back, whatever follows (section 7 of RFC 8259) |
| Serialization.EscapedIsPlain | internal/nostr/helpers.go:64-86 | no control character is left in escaped text |
| Serialization.EscapeIsShortest | internal/nostr/helpers.go:54-90 | of all texts a JSON reader takes for a character the one written is the shortest, and the only one as short with lower-case digits |
| Serialization.QuotedIsShortest | internal/nostr/helpers.go:54-90 | no text that is read as the string is shorter than what is written |
| Serialization.EscapesInTurn | internal/nostr/helpers.go:54-90 | each character is written by itself, in order |
| Serialization.ReadsTagsBack | internal/nostr/event.go:79-97 | the tag list reads back |
| Serialization.ReadsEventBack | internal/nostr/event.go:68-102 | a serialization tells key, time, kind, tags and content |
| Serialization.EventSpelledOut | internal/nostr/event.go:68-102 | a serialization, character by character: the order of the fields, no spaces |
| Serialization.SerializeIsInjective | internal/nostr/event.go:61-102 | two events with quote-free keys and the same serialization agree in every field it covers |
| Serialization.EscapeString | internal/nostr/helpers.go:54-90 | appends the quoted text of the string |
| Serialization.SerializeEventInto | internal/nostr/event.go:68-102 | appends the serialization |
| Serialization.CheckID | internal/nostr/event.go:34-58 | accepts exactly the id that is the lower-case hexadecimal hash of the serialization |
| Serialization.IdDeterminesEvent | internal/nostr/event.go:28-58 | events that pass the check and share an id are the same, unless their serializations collide |
| EndOfStored.StepKeeps | internal/relay/engine/responding.go:12-65 | every step of the handler or a worker keeps the invariant |
| EndOfStored.WorkKeepsOrder | internal/relay/engine/responding.go:53-61 | a worker writes its channel in order and nobody else does |
| EndOfStored.HandlerKeepsTheCount | internal/relay/engine/handlers.go:348-386 | the counter stays the number of filters, queries and workers not yet counted down |
| EndOfStored.RunsKeepTheInvariant | internal/relay/engine/handlers.go:348-386 | in every interleaving every state satisfies the invariant |
| EndOfStored.AnnouncedAfterEverything | internal/relay/engine/handlers.go:384-386 | in every interleaving EOSE comes after every event of every query of every filter, each channel in order, comes last, and never when a filter is rejected |
| EndOfStored.RefusalLeavesListeners | internal/relay/engine/handlers.go:364-381 | in every interleaving, once CLOSED is written the listeners of the filters before the rejected one are left: none if and only if it was the first |
| EndOfStored.EndedIsAnswered | internal/relay/engine/handlers.go:364-386 | in every run that has ended EOSE is written exactly once if no filter is rejected, else CLOSED is, and each failed query has had its notice |
| EndOfStored.EveryRunEnds | internal/relay/engine/handlers.go:364-386 | every run goes on to such an end |
| EndOfStored.NoRunPanics | internal/relay/engine/handlers.go:349-350 | in every interleaving the counter never falls below zero and EOSE and CLOSED are never both written |
| EndOfStored.SomeoneCanGoOn | internal/relay/engine/handlers.go:384-385 | nothing gets stuck before EOSE or CLOSED: the wait ends once the workers are done |
| EndOfStored.RunsAreShort | internal/relay/engine/responding.go:12-65 | every run ends, within a number of steps given by filters, queries and events |
| Monitor.Run | internal/monitor/monitor.go:198-263 | every alert sent is the one due by the history of checks and deliveries, and every slot is on schedule |
| Monitor.Tell | internal/monitor/monitor.go:219-259 | one round: the alert due is the one sent, and the locals remember what the history says |
| Monitor.DueAlertIsSent | internal/monitor/monitor.go:219-251 | the locals decide on an alert exactly when one is due, of that kind and since that check |
| Monitor.AfterRemembers | internal/monitor/monitor.go:236-261 | whatever the outcome of the delivery, the locals remember the longer history |
| Monitor.NextSlotIsOnSchedule | internal/monitor/monitor.go:217-270 | slots stay on the grid start + k * interval, after now and at most one interval away |
| Monitor.SkipMissedSlots | internal/monitor/monitor.go:265-270 | moves by whole intervals to a slot after now, at most one interval away |
| Monitor.Check | internal/monitor/monitor.go:79-134 | the result is that of the last attempt; earlier ones failed without a rejection; it stops early only on an answer or a rejection |
| Monitor.StatusTells | internal/monitor/monitor.go:104-162 | which status each probe gets; exactly the failures that are no rejection are tried again |
| Monitor.CausesAreStatuses | internal/monitor/monitor.go:151-162 | causes differ exactly when statuses do, and only a healthy result has none |
| Monitor.HistoryIsFaithful | internal/monitor/monitor.go:219-251 | alerts are delivered only when due |
| Alerts.RemindersAreApart | internal/monitor/monitor.go:232-234 | any two deliveries in a streak with no change of cause between them are at least the reminder interval apart |
| Monitor.RunsRemindApart | internal/monitor/monitor.go:198-263 | the same of every run of the monitor |
| Alerts.ToldTheCurrentCause | internal/monitor/monitor.go:228-242 | once the current cause has been told, the last delivered alert reports it |
| Alerts.DueWhenUnhealthy | internal/monitor/monitor.go:219-242 | until an alert about the cause is delivered the incident is told, as a change of cause exactly if the streak has had another; then a reminder is due exactly once the interval has passed |
| Alerts.DueWhenHealthy | internal/monitor/monitor.go:243-256 | the recovery is due exactly if some check was unhealthy and no alert has been delivered since the last such |
| Alerts.AlertReportsTheStreak | internal/monitor/monitor.go:219-251 | an alert reports its check and the time of the check that began the last streak |
| Alerts.IncidentIsAStreak | internal/monitor/monitor.go:220-223 | the check every alert of an incident reports as its beginning is the first of the unhealthy streak |
| Sketches.LevelOfBoth | internal/nostr/nip45/hyperloglog/hll.go:79-85 | the register of two collections is the larger of both |
| Sketches.SameItemsSameSketch | internal/nostr/nip45/hyperloglog/hll.go:54-77 | registers depend on which items were added, not on their order or number |
| Sketches.MergedIsUnion | internal/nostr/nip45/hyperloglog/hll.go:79-85 | merging is the sketch of the union |
| Sketches.MergeLaws | internal/nostr/nip45/hyperloglog/hll.go:79-85 | merging commutes, associates and is idempotent |
| Sketches.Level | internal/nostr/nip45/hyperloglog/hll.go:67-77 | a register is the largest rank of the items with its first byte, at most 57 |
| Sketches.LeadingZerosEndAtTheFirstOne | internal/nostr/nip45/hyperloglog/helpers.go:12-18 | the first one stands right after the zeros counted |
| HyperLogLogs.Clz56 | internal/nostr/nip45/hyperloglog/helpers.go:12-18 | the loop counts the leading zeros of the low 56 bits |
| HyperLogLogs.LowPartOfWindow | internal/nostr/nip45/hyperloglog/hll.go:71-72 | the low 56 bits are those after the first byte |
| HyperLogLogs.UnhexReadsBack | internal/nostr/nip45/hyperloglog/hll.go:55-55 | a key in hexadecimal adds the same item as its bytes |
| HyperLogLogs.HyperLogLog.AddBytes | internal/nostr/nip45/hyperloglog/hll.go:67-77 | registers that represent some items represent one more |
| HyperLogLogs.HyperLogLog.Add | internal/nostr/nip45/hyperloglog/hll.go:54-65 | the same for a key in hexadecimal |
| HyperLogLogs.HyperLogLog.MergeRegisters | internal/nostr/nip45/hyperloglog/hll.go:39-45 | register by register, the larger one |
| HyperLogLogs.HyperLogLog.Merge | internal/nostr/nip45/hyperloglog/hll.go:79-85 | the sketch of both collections, also when the other sketch is this one |
| HyperLogLogs.HyperLogLog.Clear | internal/nostr/nip45/hyperloglog/hll.go:47-51 | registers represent nothing |

## Left out

- Negentropy with a finite frame limit: the model is of the unlimited one, which is what a limit of 0 means.
- Library internals: `slices.SortFunc` appears as an insertion sort and `slices.BinarySearchFunc` as the lower bound it returns; JSON parsing is not part of this model.
- Vectors.SortItems: sorting in place, and stability, are not modelled; equal items cannot be told apart.
- SHA-256 and signatures: uninterpreted; which events have a valid signature is not modelled.
- WebSocket, HTTP, CORS, NIP-11 and NIP-86 endpoints, the command line, logging and telemetry.
- PostgreSQL itself: the table is a map, and a query is the conjunction of its conditions with order and limit. Failing connections, numbers outside a 32-bit column and full-text search are not modelled, nor is the SQL text with its placeholders.
- Several storage backends, overridden deletion outcomes, folding of write outcomes and prefixes put on rejection messages: the pipeline has one backend.
- Pipeline.Relay.HandleEvent: does not model the checks before it (id, signature, NIP-70), the response text or the broadcast after it.
- Interleaving of messages inside the store pipeline: runs are serial. Sections under a mutex are atomic steps.
- TombstoneRuns.RunsKeepAddressTombstones: exempts versions the table cannot find by their identifier; for replaceable kinds `TombstoneRuns.RequestIsStoredBesideIff` says that exactly those stay.
- Pipeline.Relay.HandleDeleteRequest: does not model overridden outcomes, several backends or failing deletes.
- Pipeline.Relay.HandleNormal: does not model several backends, failing writes or the flag that skips the broadcast.
- Postgres.PostgresBackend.QueryEventsSql: does not model full-text search and the counting form of the query.
- NegentropySession.Negentropy.Reconcile: does not tell a panic from a returned error; both are `Err`.
- HexIO.StringHexReader.ReadString: does not tell a panic on a negative size from the end of the text.
- EndOfStored.StepKeeps: does not model a channel cut short by its context; a channel delivers a given list of events.
- Aliasing of Go slices: spec lists and listener lists are sequences in fields, and every loop reads them afresh, which is what the shared backing array amounts to.
- Registry.Relay.AddListener: a relay's listeners belong to the clients of one relay that routes to it. In the registry a relay that both serves clients and is routed to is not modelled; `Listeners.MovedSpecIsFoundIff` says when a removal panics there.
- GetListeningFilters, FilterEqual, Clone, CountEvents and similar one-branch functions: easy.
- HyperLogLog estimates, and merging of sorted query batches: floating point.
- Monitor.Check: does not model cancellation, time spent or logging; which probe error is which is given.
- Time values are integers of nanoseconds; a saturating difference of times is not modelled.
