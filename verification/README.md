# Omnidisk: a verified model

Omnidisk nodes store each other's data under contracts. A node that wants storage listens for offers,
sends the contract to offering nodes until enough of them accept, and later collects its content by
listening to the contracts other nodes publish. This project models the parts of the Go program that
carry that promise and proves what they do.

| file | what it models |
|---|---|
| `calendar.dfy` | the Gregorian calendar, which says what a four-digit year is |
| `words.dfy`, `varints.dfy` | machine words, base 128 varints: size predictor, in-place encoder, reading loop |
| `schema.dfy` | the seven wire messages; one table of field types per message |
| `encoder.dfy`, `skipper.dfy`, `decoder.dfy` | the generated codec: backward-filling marshaller, unknown-field skipper, re-entrant decoder |
| `codec.dfy`, `fields.dfy`, `roundtrip.dfy` | the laws of the codec: locality, concatenation, merge, round trips |
| `wire.dfy`, `meaning.dfy` | the protobuf wire format as a grammar, and what a byte string means as a message, told without the decoder |
| `messages.dfy`, `layout.dfy` | message structs, their wire mapping, the signed string, the exact bytes |
| `ledger.dfy` | the custodian's contract list: scan, sweep, admission, retrieval, as a class with loops |
| `ledger_runs.dfy` | the same ledger as a step relation in which checks, commits, scans and sweeps interleave |
| `ledger_limits.dfy` | where the ledger fails its purpose, exactly: overcommitment, and contracts that cannot be written |
| `feed.dfy` | the deduplicating candidate feed, and listening retrieval |
| `exchange.dfy` | one request and its reply: the reader and `Send` |
| `seeking.dfy` | the storage search as a distributed transition system over all of the above |
| `answers.dfy` | what stands behind each answer of a search |
| `accepting.dfy`, `returning.dfy` | which addresses may still accept, and exactly when a search can still return |
| `stepping.dfy` | the steps of the search against the methods for getSlot, `Send` and the reader |
| `fanout.dfy` | event fan-out under one lock, with the close handshake |

Each loop of the program is a method with a loop, proved against a function; the lemmas are about the
functions. Protocols are step relations: a run is any sequence of enabled steps, and the theorems hold
after every run. Where a function is its own specification it is met by a second one that does not use it:
the decoder by the grammar of the wire format, the encoder by the bytes written out, the year bounds by the
calendar, the order of a list by the places its elements come from. `dafny verify dfyconfig.toml` checks everything.

What the proofs say about the program, where it differs from what one would expect:

- The sweep stops copying behind the last expired contract, so contracts that follow it turn into zero
  contracts. It is the intended filter exactly when there is nothing but zero contracts behind
  (`SweepIsFilterExactly`, `LiveContractLost`). Everything stored between the unlocked scan and the sweep
  lies behind, and is lost (`ScanSurvivesCommits`).
- Storage requests that are checked before earlier ones commit can overcommit, and the capacity wraps: from
  `SetOffer(C)` on an empty list some run does so exactly when C is at least 2 (`OvercommitExactly`,
  `InterleavedChecksOvercommit`). A run keeps its budget exactly when every commit finds the capacity it
  takes (`BudgetKeptExactly`); admitting writable contracts one at a time guarantees that.
- Writing the contract list fails only when some expiry has a local year outside 0 to 9999, which JSON
  refuses. One such contract poisons the ledger: until a sweep no request is answered Done, although every
  contract is kept, unpaid (`Poisoned`, `SweepCures`). When unpaid contracts are swept their size is
  credited, so serial requests of one peer raise the capacity above what was offered
  (`UnwritableInflates`). An expiry that wraps in the stored time is such a case at once
  (`WrappedIsUnwritable`), and the search for a place for it never returns (`UnwritableNeverReturns`).
- The two ends of a stream read once, into 1000 bytes. A longer message never arrives (`ArrivesExactly`), so
  an owner whose links make a longer reply cannot be answered (`RetrievalExchange`).
- A message with arbitrary unrecognized bytes need not survive the wire: it does exactly when those bytes
  are whole unknown fields at every nesting level (`RoundTripExactly`). Everything the decoder produces is
  of that kind (`DecodeEncodeDecode`).
- `Send` returns on two paths without writing its ack. Its slot then waits forever (`LeakCanHappen`,
  `LeakBlocksTheSearch`). In every reachable state the search can still return exactly when no Send has done
  so, and no more slots are missing than there are addresses that may still accept (`ReturnsExactly`): those
  not asked so far, or asked by a Send that may still be told Done, whose custodian can take the contract
  under the largest offer, can write its expiry, and is understood within 1000 bytes either way (`Able`).
- `skipMsg` knows groups but not their numbers: any end tag ends the innermost group, and inside one a field
  may have any number, zero included. It accepts exactly that, and refuses every cut field as an unexpected
  end (`SkipExactly`, `CutFieldRefused`).
- A message that announces a type and lacks its submessage makes the reader, or a waiting `Send`, panic on
  a nil pointer. That is the only such input, and two bytes are one (`ReaderPanicsExactly`,
  `SendPanicsExactly`, `BareTypePanics`).
- Closing a subscription while a publisher is in its select can make the publisher send on a closed
  channel. Without a further call of Close the program can halt exactly when some close handshake is half
  way, or a publisher is about to select on a channel already closed (`HaltsExactly`,
  `CloseWhilePublishingHalts`).
- An expiry too far in the future wraps in the stored time, so the contract is trimmed at the next tick
  (`BeforeIsUnixOrder`, `FarFutureIsExpired`).

## Model

| member | source | states |
|---|---|---|
| Varints.EncodeVarint | gen/msg/msg.pb.go:953-963 | the varint of v is written so that it ends at `offset`, its start is returned, and every other byte of the buffer is as before |
| Varints.DecodeVarint | gen/msg/msg.pb.go:1520-1534 | the reading loop returns the value at the width of its accumulator and stops right after the varint, or reports overflow past ten bytes or a premature end |
| Varints.ReadBack | gen/msg/msg.pb.go:953-963 | wherever the encoding of a 64-bit value stands, reading at any width stops after exactly `sovMsg(v)` bytes (at most ten) with v truncated to that width |
| Varints.NarrowAccumulators | gen/msg/msg.pb.go:1209-1222 | for every accepted varint, valid encoding or not, a uint32 or int32 accumulator ends with the 64-bit value cut to its width |
| Varints.SovIsLength | gen/msg/msg.pb.go:1137-1139 | the size predictor is the number of bytes of the varint |
| Varints.SovAtMostTen | gen/msg/msg.pb.go:1137-1139 | a 64-bit value takes between one and ten bytes |
| Varints.GroupsBelow | gen/msg/msg.pb.go:1520-1534 | what the loop has read so far has no bit at or above the next shift |
| Wire.VarintReadExactly | gen/msg/msg.pb.go:1492-1506 | the reading loop stops at j if and only if at most ten bytes end there of which only the last is below 128, minimal or not, and has their number at its width |
| Wire.VarintFailsExactly | gen/msg/msg.pb.go:1492-1506 | it reports overflow exactly for ten bytes that all announce another, and a premature end exactly for fewer that do |
| Wire.VarintSpells | gen/msg/msg.pb.go:953-963 | the encoder's varint is one of these, and spells its argument |
| Wire.TagAtExactly | gen/msg/msg.pb.go:1507-1514 | whatever varint stands there, a tag announces its low three bits as wire type and bits 3 to 34 as an int32 field number; an end tag or a number that is not positive is refused as such |
| Wire.FieldTagReads | gen/msg/msg.pb.go:1507-1514 | every field number up to 2^29 - 1, with every wire type but 4, is read as it was written |
| Words.TruncFits | gen/msg/msg.pb.go:1507 | a value cut to a width lies in the range of its Go type |
| Words.OrIsAdd | gen/msg/msg.pb.go:1520-1534 | bitwise or of two numbers is their sum when all bits of the one lie below those of the other |
| Words.OrShifted | gen/msg/msg.pb.go:1209-1222 | merging a group with `or`, at any width and any shift, also beyond the width, leaves the sum cut to the width in the accumulator |
| Words.IntSumWraps | gen/msg/msg.pb.go:1194-1198 | the sum of two non-negative ints as used by the bounds tests is two's complement addition |
| Encoder.SizeExact | gen/msg/msg.pb.go:964-1136 | `Size` of a message of any type is the number of bytes of its encoding, at every nesting level |
| Encoder.MarshalToSizedBuffer | gen/msg/msg.pb.go:709-772 | on any buffer with room for `Size` bytes exactly the last `Size` bytes before the end are written, with the encoding, and nothing else changes; no index is out of range |
| Encoder.PutTexts | gen/msg/msg.pb.go:932-951 | the backward loop over a repeated field leaves its elements in forward order, each behind its tag and length |
| Encoder.Marshal | gen/msg/msg.pb.go:694-702 | a buffer of exactly the predicted size is filled completely |
| Skipper.Skip | gen/msg/msg.pb.go:2172-2249 | skipping terminates on every byte string, and a success is beyond the start and within int |
| Wire.SkipReads | gen/msg/msg.pb.go:2191-2247 | every field of the format, a varint, eight bytes, a length and its payload, a group of fields at any nesting, or four bytes, is skipped with exactly its own bytes, whatever follows |
| Wire.SkipExactly | gen/msg/msg.pb.go:2172-2249 | the default arm skips from i to j if and only if the bytes between are the encoding of one such field |
| Wire.CutFieldRefused | gen/msg/msg.pb.go:1684-1690 | every such field that is cut off anywhere, also inside nested groups, is refused as an unexpected end |
| Wire.LengthRefused | gen/msg/msg.pb.go:2225-2244 | a length that is negative as an int or makes the index wrap is refused as an invalid length |
| Wire.TagRefused | gen/msg/msg.pb.go:2229-2241 | wire types 6 and 7, and an end tag outside groups, are refused as such |
| Skipper.SkipMsg | gen/msg/msg.pb.go:2172-2249 | the loop over index and depth computes `Skip`, and a success is at least 1 |
| Skipper.SkipLocal | gen/msg/msg.pb.go:2172-2249 | skipping, groups included, depends only on the bytes it consumes and not on where they stand |
| Decoder.Step | gen/msg/msg.pb.go:1490-1690 | one pass of the outer loop strictly advances, stays in bounds also when `iNdEx + length` wraps, and keeps the struct well typed |
| Decoder.Unmarshal | gen/msg/msg.pb.go:1487-1700 | the loop terminates on every byte string, with the result or the first error of the field-by-field decoding; nested calls get strictly shorter slices |
| Meaning.DecodeExactly | gen/msg/msg.pb.go:1487-1700 | `Unmarshal` accepts a byte string into m with result x if and only if it is a sequence of well-formed fields, the known ones with the wire type of their Go type, whose effects in order turn m into x |
| Meaning.ForeignAreKept | gen/msg/msg.pb.go:1676-1690 | any list of fields with unknown numbers leaves every known field as it is and is appended to the unrecognized bytes verbatim |
| Meaning.KeptExactly | gen/msg/msg.pb.go:1676-1690 | of any accepted input exactly the fields with unknown numbers are kept, verbatim and in order |
| Meaning.WrongWireTypeRefused | gen/msg/msg.pb.go:1516-1518 | a known field with another wire type is refused as such, whatever follows |
| Meaning.LengthRefusedInField | gen/msg/msg.pb.go:1554-1563 | a known field whose length is negative or wraps the index is an invalid length, one that reaches beyond the slice an unexpected end |
| Meaning.VarintErrorPassed | gen/msg/msg.pb.go:1492-1534 | a tag, a value or a length that is no varint fails the message with the varint's own error |
| Meaning.SubmessageErrorPassed | gen/msg/msg.pb.go:1564-1569 | a refused submessage fails its message with the same error |
| Codec.DecodeLocal | gen/msg/msg.pb.go:1487-1700 | decoding depends only on the bytes it reads, wherever they stand |
| Codec.Concatenation | gen/msg/msg.pb.go:1487-1700 | if a is accepted into m, decoding a + b into m succeeds with y if and only if decoding b into the result of a does |
| FieldCodec.FieldDecodes | gen/msg/msg.pb.go:1515-1690 | decoding the encoding of one field over any struct changes that field alone: omitted default, last value, appended strings or merged submessage |
| RoundTrip.DecodeMerges | gen/msg/msg.pb.go:1487-1700 | last one wins: decoding the encoding of m2 into m1 gives their merge, unknown bytes appended in order |
| RoundTrip.ConcatenationMerges | gen/msg/msg.pb.go:2089-2171 | the concatenation of two encodings decodes to the merge of the two messages |
| RoundTrip.MergeAssociates | gen/msg/msg.pb.go:1487-1700 | merging is associative, so the grouping of concatenated encodings does not matter |
| RoundTrip.WellFormedRoundTrip | gen/msg/msg.pb.go:694-772 | every message without unknown bytes, or with well-formed ones, survives encoding and decoding: defaults, negative numbers, empty strings in lists, nested presence |
| RoundTrip.RoundTripExactly | gen/msg/msg.pb.go:709-720 | a message survives the round trip if and only if its unrecognized bytes are whole unknown fields at every nesting level |
| Meaning.AllUnknownExactly | gen/msg/msg.pb.go:709-720 | that condition in terms of the format: the bytes are the encoding of a list of fields with unknown numbers |
| RoundTrip.KnownFieldAmongUnknownBytes | gen/msg/msg.pb.go:597-632 | the condition is needed: an Offer whose unrecognized bytes spell a known field does not survive |
| RoundTrip.DecodedIsCanonical | gen/msg/msg.pb.go:1676-1690 | at every nesting level the decoder only collects whole unknown fields, and never more bytes than it read |
| RoundTrip.UnknownVerbatim | gen/msg/msg.pb.go:1676-1690 | what it collects is the input's unknown fields, verbatim and in order, behind what the struct held before |
| RoundTrip.DecodeEncodeDecode | gen/msg/msg.pb.go:1487-1700 | whatever `Unmarshal` accepts into a fresh struct, any message type, is restored from its own encoding |
| Messages.ProtobufRoundTrip | messages/entities.go:22-130 | the four mappings and their inverse lose nothing but fractions of a second |
| Messages.WireRoundTrip | messages/entities.go:22-130 | every message struct of at most 1000 bytes survives mapping, bytes, reading, decoding and mapping back, times cut to whole seconds |
| Messages.SignatureSurvivesTheWire | node/node.go:491-509 | the string rebuilt by the receiver of a retrieval request that fits the buffer is the string that was signed, so a sound signature verifies |
| Messages.SignedStringsExactly | node/node.go:503 | for one address and owner the signed strings of two times are equal if and only if their Unix seconds are |
| Messages.FormatIntSpells | node/node.go:503 | the decimal string of an int64 spells its argument, sign included |
| Messages.TamperedExactly | node/node.go:491-509 | with a scheme that binds signatures to strings, a request whose timestamp was exchanged verifies if and only if the seconds are the same, and one whose signature was exchanged exactly when the scheme accepts it |
| Messages.BeforeIsUnixOrder | messages/entities.go:99 | a time received as Unix seconds compares by them if and only if its stored form has not wrapped; one that has is before every faithful time |
| Layout.MessageBytes | gen/msg/msg.pb.go:709-951 | the exact bytes of each of the four messages: every tag, the order of fields, what is omitted, negative times as ten bytes |
| Layout.OfferBytes | gen/msg/msg.pb.go:597-632 | an offer's numbers are a uint32 and an int64, and these are its exact bytes |
| Layout.ArrivesExactly | node/connector.go:103-110 | a message struct is read at the other end, in whole seconds, if and only if it takes at most 1000 bytes; a longer one is refused |
| Ledger.Expired | node/offer_manager.go:107-112 | the scan lists, strictly increasing, exactly the contracts that had expired when the clock was read for them |
| Ledger.OfferManager.Scan | node/offer_manager.go:107-112 | the scanning loop computes that list |
| Ledger.OfferManager.Sweep | node/offer_manager.go:115-142 | the sweep as written: survivors up to the last expired contract, then zero contracts; freed capacity modulo 2^32 if an offer is set; the listed contents are unpinned; no index is out of range |
| Ledger.SurvivorsExactly | node/offer_manager.go:120-140 | what is copied stands, in the order of the list, at exactly the places that are not listed |
| Ledger.SweepIsFilterExactly | node/offer_manager.go:120-140 | the sweep is the intended filter if and only if every contract behind the last expired one is a zero contract |
| Ledger.SweepWithoutBreak | node/offer_manager.go:120-140 | the same loop without its break fills the new list with the intended filter, in range |
| Ledger.FarFutureIsExpired | node/offer_manager.go:108-111 | a contract whose expiry is too far in the future to be stored is expired at any tick |
| Ledger.LiveContractLost | node/offer_manager.go:133-134 | a live contract stored behind an expired one becomes a zero contract |
| Ledger.NextTickIsExact | node/offer_manager.go:105-142 | zero contracts left at the end are swept exactly at the next tick if nothing is stored in between |
| Ledger.SweepAccounts | node/offer_manager.go:120-140 | every byte held before a sweep is kept, freed or in the uncopied tail |
| Ledger.WritableExactly | node/offer_manager.go:156-159 | an expiry can be marshalled if and only if its Gregorian year in the node's zone is one of 0 to 9999 |
| Messages.ZeroTimeIsYearOne | messages/entities.go:99 | the zero time is the first second of the year 1, and is stored as 0 |
| Calendar.YearsBetween | node/offer_manager.go:156-159 | a second falls into one of the years from a up to b if and only if it lies between the days counted to a and to b by the leap year rule |
| Ledger.OfferManager.WriteToDisk | node/offer_manager.go:150-164 | writing succeeds if and only if the expiry of every held contract lies in the years 0 to 9999 of the node's zone |
| Ledger.OfferManager.StoreContract | node/offer_manager.go:166-179 | the contract is appended also when writing fails, which it does if and only if its expiry or one already held cannot be marshalled |
| Ledger.SweptCanWrite | node/offer_manager.go:120-164 | after a sweep the list can be written if and only if every survivor up to the last listed index can |
| Ledger.OfferManager.ProcessStorageRequest | node/offer_manager.go:181-215 | the reply is Done exactly when the request is admitted, hosted, and the list with it can be written; only then is its size taken off; a failed write keeps the contract |
| Ledger.OfferManager.ProcessRetrievalRequest | node/offer_manager.go:217-246 | a request older than six minutes gets no links, any other the owner's links in order |
| Ledger.SixMinutes | node/offer_manager.go:222-226 | too old means that strictly more than six minutes have passed between the stored times, to the nanosecond |
| Ledger.CidsOfExactly | node/offer_manager.go:232-237 | the links of the answer stand, in order, at exactly the places of the owner's contracts |
| Ledger.CidsOfCounts | node/offer_manager.go:232-237 | the answer lists a link exactly as often as the owner has contracts for it |
| Ledger.OfferManager.SetOffer | node/offer_manager.go:248-265 | setting an offer that is set changes its capacity and still reports an error |
| LedgerRuns.ScanSurvivesCommits | node/offer_manager.go:107-142 | whatever runs between scan and sweep, the listed indices stay in range and still are the expired contracts, only their sizes are credited, and everything stored in between is replaced by zero contracts |
| LedgerRuns.Conservation | node/offer_manager.go:115-215 | over every run with the offer set, capacity plus holdings changes by the sizes of failed commits, minus the uncopied tails, plus 2^32 for each wrap |
| LedgerRuns.AdmissionsBalance | node/offer_manager.go:186-210 | over every run each check of a contract is used by at most one commit or drop, and waits until then |
| LedgerRuns.BudgetKeptExactly | node/offer_manager.go:181-215 | for every interleaving on a writable list with writable contracts, capacity plus holdings stay within the budget throughout if and only if each commit finds the capacity it takes |
| LedgerRuns.AdmissionNeverOvercommits | node/offer_manager.go:181-215 | from `SetOffer(capacity)` with nothing held, any run in which writable contracts are checked and committed one at a time leaves at least 1 of capacity, holds at most capacity - 1, never wraps, and keeps an exact account |
| LedgerRuns.InterleavedChecksOvercommit | node/offer_manager.go:186-206 | two requests checked before either commits overcommit and wrap the capacity |
| LedgerLimits.OvercommitExactly | node/offer_manager.go:181-215 | from `SetOffer(capacity)` on an empty list some run overcommits if and only if the capacity is at least 2 |
| LedgerLimits.Poisoned | node/offer_manager.go:150-210 | from any state that holds a contract whose expiry cannot be marshalled, over every run without a sweep, no commit succeeds, every committed contract is kept, and the capacity is as before |
| LedgerLimits.SweepCures | node/offer_manager.go:120-164 | a sweep makes the list writable again if and only if every contract it keeps can be marshalled |
| LedgerLimits.UnwritableInflates | node/offer_manager.go:120-210 | k serial rounds of one unwritable, expired contract raise the capacity by k times its size, with nothing held in the end |
| LedgerLimits.WrappedIsUnwritable | messages/entities.go:99 | an expiry that wraps in the stored time can be written in no zone and has expired at every faithful clock |
| Feed.Chosen | node/contract_manager.go:101-146 | the positions the feed picks are strictly increasing and suit the candidate type |
| Feed.ChosenExactly | node/contract_manager.go:101-146 | they are exactly the first publications from their address that suit: any offer, or a contract publication listing the owner |
| Feed.CandidatesBounded | node/contract_manager.go:167-179 | no address is fed twice, so no more are fed than there are addresses |
| Feed.GetCandidates | node/contract_manager.go:101-146 | the feeder's loop puts exactly those addresses on the channel, in order, up to the point where the seeker closes |
| Feed.FoundExactly | node/contract_manager.go:225-241 | what listening collects stands, once each and in order, at exactly the matching contracts of the first publication from each address |
| Feed.RetrieveDataV2 | node/contract_manager.go:184-263 | the loops collect exactly that, the owner's contracts alone and with a cid given only that cid; `datatypes` stays aligned so the last loop is in range; each script gets its entry's type and cid, and the key exactly for types 1 and 2; a missing key stops at the first of these |
| Exchange.Reader | node/connector.go:123-168 | the reply and the new ledger for every byte string that may arrive, silence on errors and other types, and where it panics |
| Exchange.Send | node/connector.go:171-264 | what each exit leaves in the slot, including the two that leave it untouched, and what of the reply is copied when the ack is 1 |
| Exchange.SendAckExactly | node/connector.go:171-264 | the slot stays untouched if and only if a request of a known type meets an address without peer or a failed connection; it gets 1 if and only if a settling reply of the matching type is read; a panic aside, every other exit leaves 0 |
| Exchange.ReaderSilentExactly | node/connector.go:123-168 | the reader writes nothing and does not panic if and only if nothing, nothing legible or no request arrives |
| Exchange.ReaderPanicsExactly | node/connector.go:133-148 | the reader panics if and only if the message is a request of either type without its submessage, or a storage request without its contract |
| Exchange.SendPanicsExactly | node/connector.go:236-250 | Send panics if and only if the reply has the expected type and lacks its submessage |
| Exchange.BareTypePanics | messages/entities.go:92-127 | such messages exist: the two bytes that are only a type |
| Exchange.NoContractPanics | messages/entities.go:92-101 | a storage request without a contract is one too, in four bytes |
| Exchange.ExchangeConforms | node/connector.go:133-160 | the reader answers exactly the requests that fit its buffer, without panic and with the type `Send` expects, so the ack is 1 exactly when the reply fits and settles the request |
| Exchange.StorageExchange | node/connector.go:236-247 | end to end: the ack is 1 if and only if both messages fit, the request was admitted and hosted, and the held expiries and its own can be marshalled; then the custodian holds the contract in whole seconds and has paid for it |
| Exchange.RetrievalExchange | node/connector.go:248-258 | end to end: the ack is 1 if and only if both messages fit, the request is fresh and the custodian has a contract of the owner; the links arrive unchanged |
| Seeking.GetSlotPass | node/contract_manager.go:79-97 | one round of getSlot claims the first declined slot and nothing else, and reports done only if all slots are accepted |
| Seeking.SlotStateMachine | node/contract_manager.go:79-97 | in every reachable state a slot waits exactly while it has an owner, which is unique; accepted slots and Sends under way never exceed the cardinality; the search returns only when all slots are accepted, although slots change while getSlot reads them |
| Seeking.AcceptedForever | node/connector.go:243-247 | an accepted slot never changes again |
| Seeking.LeakBlocksTheSearch | node/connector.go:194-205 | a Send that returned without an ack owns a waiting slot in every later state, so the search never returns |
| Seeking.DialledAreCandidates | node/contract_manager.go:165-178 | the Sends are started for the first occurrences of offer addresses, in order, never more than there are addresses |
| Seeking.SeekingIsSound | node/contract_manager.go:150-182 | in every interleaving, when the search returns exactly `cardinality` distinct offered addresses answered Done, and the custodian behind each had committed that contract, equal field by field in whole seconds, by a step of its own ledger |
| Answers.AnswersAreCommits | node/offer_manager.go:181-210 | no custodian answers Done to more Sends, at all its addresses together, than it has committed the contract with success during the search |
| Answers.DoneByOwnCommit | node/offer_manager.go:196-210 | behind every answer Done is a successful commit made for that very Send |
| Answers.CommitsOnce | node/connector.go:123-168 | in every run a custodian commits at most once for a Send, whether the commit was written or not |
| Answers.CopiesBounded | node/contract_manager.go:165-178 | a search leaves at most as many copies as it has started Sends |
| Accepting.RunGains | node/contract_manager.go:165-178 | over every run the slots that are missing never shrink by more than the addresses that may still accept do |
| Returning.ReturnsExactly | node/connector.go:194-205 | in every reachable state, for every contract and cardinality, some continuation returns if and only if no Send has returned without its ack and no more slots are missing than there are addresses that may still accept |
| Returning.LeakCanHappen | node/connector.go:201-205 | every search for at least one copy can lose a Send that way |
| Returning.SearchReturnsExactly | node/contract_manager.go:167-179 | a search returns on some run if and only if the custodians that can accept are at least as many as the copies sought |
| Returning.UnwritableNeverReturns | node/offer_manager.go:150-164 | with an expiry outside the years 0 to 9999 of every custodian's zone the search for a copy returns on no run |
| Stepping.UndisturbedRound | node/contract_manager.go:79-97 | a round of the main loop that nobody disturbs claims the first declined slot, returns when all are accepted, and otherwise starts over |
| Stepping.NextRound | node/contract_manager.go:165-178 | so does the round after an address was taken up, from the first slot on |
| Stepping.StepEndsSend | node/connector.go:171-264 | the step that stands for an exit of `Send` leaves in the slots exactly what `Send` leaves there |
| Stepping.EveryEndHasDial | node/connector.go:171-264 | every step that ends a Send stands for such an exit |
| Stepping.LeaksExactly | node/connector.go:194-205 | a Send leaks its slot if and only if its address has no peer, the connection fails, or it panics |
| Stepping.ReaderServes | node/offer_manager.go:181-215 | the reader's steps on a request, uninterrupted, give the answer and the books its method computes for it |
| Returning.OnlyOffered | node/contract_manager.go:110-115 | an address is tried or on offer only if it was offered, so one that was not can still be asked |
| Fanout.FanoutOrder | node/node.go:105-121 | in every run, what a subscriber got is a contiguous segment of the one publish order from its subscription on, complete until its owner closes it |
| Fanout.OnePerNext | events/event_handler.go:57-63 | in every run a subscriber has received as many events as it called Next, but for the call that is waiting |
| Fanout.HaltsOnlyOnClose | events/event_handler.go:82-94 | a run halts only in the select of a subscription whose owner has called Close and whose channel is closed |
| Fanout.HaltsExactly | events/event_handler.go:82-110 | in every reachable state, some continuation without a call of Close halts if and only if a close handshake is half way or a publisher is about to select on a closed channel |
| Fanout.CloseWhilePublishingHalts | events/event_handler.go:103-110 | such runs exist: handleClose may close the channel a publisher is blocked on |

## Left out

- The seven generated copies of the codec are one table-driven codec; a field number and type per message is all in which the copies differ.
- Decoder.Unmarshal: the struct is passed and returned as a value; what a failed call leaves in the receiver is not modelled, nor are nil and empty slices told apart.
- Encoder.MarshalToSizedBuffer: a message whose size does not fit an int, where the program's `Size` wraps, is excluded by its precondition.
- `MarshalTo`, `sozMsg`, getters, descriptors and the `XXX_` methods of the generated file.
- Stream framing: one read of a stream delivers up to 1000 bytes of the message, as many as there are, or fails; short reads are not modelled.
- Ledger.OfferManager.SetOffer: its unlocked write is one atomic step; a write in the middle of a commit's read and write of the capacity is not modelled, nor are the offer's address, timestamp and signature.
- Ledger.OfferManager.ProcessRetrievalRequest: adding six minutes to a stored time near the end of the int64 range does not overflow here; what the library then does depends on its version.
- Disk and JSON: a write fails exactly when an expiry cannot be marshalled, as errors of the file itself are ignored by the program; what stands in the file, loading it, `updateOffer` and advertising are left out. A node's time zone is one fixed offset.
- IPFS, the scripts and hosting: an outcome chosen by the environment; the scripts started are returned as a list.
- Cryptography: signing and checking are a pair of functions; verification of offers is commented out in the program.
- Exchange.Send: a peer's events are not published here, and concurrent Sends writing the shared response object are not interleaved.
- `RetrieveData`, the older retrieval, runs the same machine with one slot and is not called any more.
- Fanout.FanoutOrder: the channels, flags and goroutines of the event handler are a step relation and not classes, because every operation blocks on another goroutine.
- Liveness: that a search can return is not that it does; a leaked slot or an unread subscription can block progress forever.
- libp2p, the DHT, gossip, gRPC, the command line, logging and key files.
