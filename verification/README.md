# Verified models of the bundled Contiki applications

The modules here model the stateful logic of the Contiki tree bundled with the repository and prove what that logic
keeps, what it undoes, and where it does not do what its comments promise.

| files | part |
|---|---|
| CoapWire, CoapMessage, CoapFields, CoapCount, CoapDatagram, CoapSetters, CoapSerializer, CoapParser, CoapTransfer | the CoAP draft-07 codec: options, fence posts, split and joined strings, in-place parsing |
| WellKnown, Blockwise, Transactions | the listing of resources in blocks, block-wise serving and the blocking client, retransmission |
| Lvm, Ranges, Machine, Clauses, WhereParser | Antelope's WHERE compiler, its byte-code machine and the inference of variable ranges |
| HeapTree, Buckets, HeapSearch, MaxHeap, Select | the max-heap index and index-driven selection |
| JsonTree, JsonParse, JsonRoundTrip | the JSON writer, the JSON tokenizer, and one after the other |
| Deluge, DelugeSafety, DelugeExchange, DelugeNetwork, DelugeProgress | page-wise code dissemination on one node and over a network |
| Codeprop | code propagation with NACKs |
| Checksum, Tunslip, SerialLine | the Internet checksum, IP packets and serial framing of tunslip |
| Bytes, Wrappers | octets and words, optional values |

Code that changes state is modelled by classes and methods over fields and arrays; each method is tied to a function on
values, and the properties are lemmas about those functions, over single calls, whole messages, or whole runs.
`dafny verify dfyconfig.toml` checks everything.

Three places where the code and its own description differ are worth naming here. The option count of the CoAP
serialiser disagrees with its fence-post loop for gaps of 14 and 15 (draft-ietf-core-coap-07, sections 3.1 and 3.2).
select_index is described as picking the smallest range and picks the last. The code propagator's receiver NACKs a first
packet that is not for address 0 by overwriting the address it tests next, and so stores that packet at address 0.
Nor is a SELECT along an index always the SELECT without it: an OR that constrains the indexed attribute on one side only
loses the rows of the other side.
Deluge keeps the queued page in eight bits with sign, so that requests for pages from 128 on are never answered, and
tunslip tests the flag against fragmentation in the byte order of the host.

## Model

| member | source | states |
|---|---|---|
| CoapCount.DeliveredExactlyWhen | dep/apps/er-coap-07/er-coap-07.c:302-739 | Every message whose options fit the header limit is read back with the same header fields, options (through the getters) and payload if and only if it has at most 15 options, no Proxy-Uri, every path and query survives splitting, block sizes are powers of two with a more flag of 0 or 1, and no two consecutive option numbers are 14 or 15 apart |
| CoapCount.TooManyOptionsAreNotDelivered | dep/apps/er-coap-07/er-coap-07.c:447-507 | A message whose option count does not fit its four bits is never delivered: some option of the sender is missing or cut short |
| CoapCount.FewerOptionsDiffer | dep/apps/er-coap-07/er-coap-07.c:564-722 | Reading fewer options than were written leaves some field different from the sender's |
| CoapMessage.RoundTripIff | dep/apps/er-coap-07/er-coap-07.c:302-739 | The equivalence for option counts that fit: read back with the same header fields, options (through the getters) and payload if and only if it has no Proxy-Uri, every path and query survives splitting, block sizes are powers of two with a more flag of 0 or 1, and no two consecutive option numbers are 14 or 15 apart |
| CoapSetters.FilledRoundTrip | dep/apps/er-coap-07/er-coap-07.c:792-1204 | The equivalence for every message that any sequence of setter calls with any arguments can build |
| CoapSetters.SettersFill | dep/apps/er-coap-07/er-coap-07.c:792-1175 | No sequence of setter calls leaves the field widths, sets an option outside the table, or stores a block outside the range |
| CoapSetters.LastSettingIsTaken | dep/apps/er-coap-07/er-coap-07.c:792-1175 | Whatever setters were called before, the getters return what a call was given, in the width of the field and without leading slashes or question marks (a location is divided at the first question mark), until a later call for the same option |
| CoapTransfer.Transfer | dep/apps/er-coap-07/er-coap-07.c:302-739 | Serialising into a buffer and parsing that buffer in place: the parser returns NO_ERROR with the sender's message exactly under the conditions of the round trip |
| CoapTransfer.JoinedFields | dep/apps/er-coap-07/er-coap-07.c:564-722 | For every accepted datagram, each path and query field is the join of that option's values from the first non-empty one on |
| CoapDatagram.DatagramIff | dep/apps/er-coap-07/er-coap-07.c:535-739 | For any datagram of version 1 and the options that stand in it: it is refused exactly when one of them is Proxy-Uri or has an odd number that is not known, with the status of the first such option (165 for Proxy-Uri, 130 otherwise); if none is and all options are there it is received, with header fields, payload, and every getter's value told by the values of that option alone, so that unknown even options change nothing |
| CoapDatagram.AnyDatagram | dep/apps/er-coap-07/er-coap-07.c:546-563 | Every datagram of at least four bytes is of that kind, or of another version and a bad request |
| CoapDatagram.IntIsBigEndian | dep/apps/er-coap-07/er-coap-07.c:86-96 | An integer option of any length denotes its big-endian value modulo 2^32 |
| CoapMessage.CountIff | dep/apps/er-coap-07/er-coap-07.c:444-490 | The option count added up by the serialiser equals the number of options written exactly when no gap between option numbers is 14 or 15; otherwise it is one too high |
| CoapWire.FencePostCountIff | dep/apps/er-coap-07/er-coap-07.c:444-490 | The formula (number - current) / 14 agrees with the fence posts really written exactly when the gap is neither 14 nor 15 |
| CoapWire.FencePostsBridge | dep/apps/er-coap-07/er-coap-07.c:116-128 | Fence posts land on multiples of 14, never pass the target number, carry no value, and leave a delta of at most 15 |
| CoapWire.SplitJoinIff | dep/apps/er-coap-07/er-coap-07.c:157-227 | Splitting a string at its separator and joining the parts gives the string back exactly when it has no leading separator and no separator at which the loop stops ends it or is followed by a slash; the character behind such a separator is not tested itself, so that "a&&" comes back |
| CoapWire.IntRoundTrip | dep/apps/er-coap-07/er-coap-07.c:86-150 | An integer option is read back as the integer written |
| CoapWire.IntBytesLength | dep/apps/er-coap-07/er-coap-07.c:142-145 | An integer takes as many bytes as it needs, none for zero |
| CoapMessage.BlockRoundTrip | dep/apps/er-coap-07/er-coap-07.c:453-467 | A Block value keeps number and more flag; the size survives exactly when it is a power of two; the receiver's offset is number times received size and stays below 2^31 |
| CoapMessage.ParseEncoded | dep/apps/er-coap-07/er-coap-07.c:564-722 | The parser reads exactly the encoded options, applies them in order, and goes on right behind them, whatever follows |
| CoapMessage.OptionsReceived | dep/apps/er-coap-07/er-coap-07.c:564-722 | Receiving all options a packet is serialised to fills every field with what the sender's field makes of it and touches no other |
| CoapMessage.FieldIff | dep/apps/er-coap-07/er-coap-07.c:782-1158 | A received field equals the sent one exactly when the format can carry it |
| CoapMessage.DeliveredIff | dep/apps/er-coap-07/er-coap-07.c:302-739 | With a right option count, the message is delivered exactly when all its options are transportable |
| CoapMessage.MiscountedIsNotDelivered | dep/apps/er-coap-07/er-coap-07.c:448-489 | With a count that is one too high the payload loses at least a byte or parsing fails: the message is never delivered |
| CoapMessage.ProxyIsNotDelivered | dep/apps/er-coap-07/er-coap-07.c:595-603 | A message with a Proxy-Uri is never delivered |
| CoapSerializer.Serialize | dep/apps/er-coap-07/er-coap-07.c:302-517 | coap_serialize_message: returns 0 exactly when header and options exceed COAP_MAX_HEADER_SIZE, otherwise leaves the datagram at the start of the buffer and changes nothing behind it |
| CoapSerializer.SerializeOption | dep/apps/er-coap-07/er-coap-07.c:318-490 | One IS_OPTION block: its bytes, its contribution to the option count, and the next current number |
| CoapSerializer.SerializeInt | dep/apps/er-coap-07/er-coap-07.c:132-150 | coap_serialize_int_option: fence posts, header and the shortest big-endian value, the value being stored before the header |
| CoapSerializer.WriteIntBytes | dep/apps/er-coap-07/er-coap-07.c:142-145 | The four conditional byte stores produce the shortest big-endian form |
| CoapSerializer.SerializeArray | dep/apps/er-coap-07/er-coap-07.c:191-199 | Fence posts, header and value as the format prescribes, every other byte unchanged |
| CoapSerializer.SerializeSplit | dep/apps/er-coap-07/er-coap-07.c:163-190 | coap_serialize_array_option with a split character: one option per part, and the number of parts in *split_option |
| CoapSerializer.SerializeAccept | dep/apps/er-coap-07/er-coap-07.c:423-434 | One option per content type, only the first being preceded by fence posts |
| CoapSerializer.SerializeProxy | dep/apps/er-coap-07/er-coap-07.c:337-352 | One option per piece of at most 270 bytes, and their number |
| CoapCount.ProxyIsCut | dep/apps/er-coap-07/er-coap-07.c:337-352 | The pieces that a Proxy-Uri is written in make it up, all but the last having 270 bytes |
| CoapSerializer.InsertFencePosts | dep/apps/er-coap-07/er-coap-07.c:116-128 | The loop writes exactly the fence posts and leaves the last post's number as the current number |
| CoapSerializer.SetOptionHeader | dep/apps/er-coap-07/er-coap-07.c:99-112 | One or two header bytes, all others unchanged |
| CoapParser.Packet.Parse | dep/apps/er-coap-07/er-coap-07.c:535-739 | coap_parse_message in place: status, header fields, options and payload are those of the specification applied to the original bytes, strings standing in the datagram itself; the payload is zero-terminated behind every string |
| CoapParser.Packet.ParseAll | dep/apps/er-coap-07/er-coap-07.c:564-722 | The option loop: no byte at or behind the next unparsed option is changed |
| CoapParser.Packet.ApplyOption | dep/apps/er-coap-07/er-coap-07.c:588-716 | The switch: one field changes as specified, everything behind the option stays as it was |
| CoapParser.Packet.MergeMultiOption | dep/apps/er-coap-07/er-coap-07.c:207-227 | In-place joining: the field becomes the join, every other string in the buffer is unchanged, and so is everything behind the value |
| CoapParser.MoveStep | dep/apps/er-coap-07/er-coap-07.c:207-220 | Moving a value behind the separator changes no other received string and nothing at or behind the next option |
| CoapParser.ReadInt | dep/apps/er-coap-07/er-coap-07.c:86-96 | The big-endian value of the bytes modulo 2^32 |
| WellKnown.WellKnownCore | dep/apps/er-coap-07/er-coap-07-engine.c:307-421 | The handler returns exactly listing[offset .. offset + size], the error for an offset behind the listing, and offset -1 if and only if the listing ends before the end of the block, or at its end without ending in attributes |
| WellKnown.Writer.PutString | dep/apps/er-coap-07/er-coap-07-engine.c:347-384 | The snprintf step: the block gets its part of the string; the length that would have been written decides whether the block is full |
| WellKnown.Writer.PutChar | dep/apps/er-coap-07/er-coap-07-engine.c:332-344 | One character enters the block exactly if it falls into it |
| WellKnown.Writer.PutLink | dep/apps/er-coap-07/er-coap-07-engine.c:332-393 | The text of one resource, and whether the block was completed inside it |
| WellKnown.LinksThenListing | dep/apps/er-coap-07/er-coap-07-engine.c:318-402 | The links of the first resources followed by the listing of the others is the listing |
| WellKnown.ListingIsJoined | dep/apps/er-coap-07/er-coap-07-engine.c:318-393 | The listing is the links of the listed resources in the link format joined by commas, and ends with a comma exactly when the last resource has been filtered out and others have not |
| Blockwise.Receive | dep/apps/er-coap-07/er-coap-07-engine.c:120-228 | The Block2 logic of coap_receive for resources that cut their own blocks and for resources that return a whole body |
| Blockwise.TagNamesPayloadIff | dep/apps/er-coap-07/er-coap-07-engine.c:140-207 | With block numbers of 20 bits and a server block size from 16 to 2048, as the Block2 option can carry them: a block response carries the slice that its number and size name exactly when the client asked for the first block or for blocks no larger than the server sends |
| Blockwise.RefusedIff | dep/apps/er-coap-07/er-coap-07-engine.c:140-207 | A request is refused exactly when its offset lies at or behind the end of a representation, but for the empty listing; what is sent then is the text BlockOutOfScope, cut to the block size when the resource cuts its own blocks |
| Blockwise.Client.BlockingRequest | dep/apps/er-coap-07/er-coap-07-engine.c:456-522 | The blocking client's loop: request, receive, deliver or count an error, until no more blocks or four errors |
| Blockwise.AnswersCounted | dep/apps/er-coap-07/er-coap-07-engine.c:456-522 | In any run each answer is either delivered as the awaited block or counted as an error; the loop ends exactly with an answer that says that no more blocks follow or with the fourth error, and the process exits where a request cannot be sent or is not answered |
| Blockwise.InOrderDelivery | dep/apps/er-coap-07/er-coap-07-engine.c:477-519 | For every sequence of lost, repeated or reordered responses whose payload is the slice they are labelled with, the blocks delivered are 0, 1, 2, ... once each in order, and the output is a prefix of the representation |
| Blockwise.FinishedIff | dep/apps/er-coap-07/er-coap-07-engine.c:500-519 | With honest more flags, a client whose loop has ended holds the whole representation exactly when the response that ended it was the awaited block |
| Blockwise.Fetch | dep/apps/er-coap-07/er-coap-07-engine.c:120-519 | Client and server together, for any block size: a representation that needs one block arrives as it is; otherwise the first block has the server's size, the others are cut at multiples of the power of two that the Block2 option can carry, and the text of the error response follows exactly if the listing fills its last such block and ends in attributes |
| Blockwise.ReceivedIff | dep/apps/er-coap-07/er-coap-07-engine.c:120-519 | The client ends with exactly the representation if and only if that fits into one block that is known to be the last, or the block size is a power of two and the handler notices the end of the listing |
| Transactions.RetransmissionInvariant | dep/apps/er-coap-07/er-coap-07-transactions.c:77-199 | In every run of new, send, check and clear whose checks keep the invariant (that is, do not come to a confirmable transaction before it is first sent), the pool and the list hold the same transactions; each one sent is confirmable, below COAP_MAX_RETRANSMIT, with interval I * 2^counter for I in [2 s, 3 s] and counter + 1 transmissions at least the intervals apart; those given up have been transmitted five times |
| Transactions.ReleaseTime | dep/apps/er-coap-07/er-coap-07-transactions.c:97-154 | With timers served as they run out, the transmissions are at 0, I, 3 I, 7 I and 15 I, and the transaction is released with the fifth |
| Transactions.CheckBeforeSend | dep/apps/er-coap-07/er-coap-07-transactions.c:186-199 | Such a check sends with a doubled stale interval |
| Transactions.CheckKeepsSoundIff | dep/apps/er-coap-07/er-coap-07-transactions.c:186-199 | The check loop keeps the invariant if and only if it does not come to a confirmable transaction that is still unsent; it ends early at a transaction that is given up or is not confirmable |
| Transactions.CheckServes | dep/apps/er-coap-07/er-coap-07-transactions.c:186-199 | From any state of the invariant in which no unsent confirmable transaction is met, a check sends each listed transaction whose timer is not running once more, with counter and transmissions one up and the interval doubled, up to the one the loop ends at, which is freed and, if confirmable, given up; all other blocks stay as they are |
| Transactions.ChecksServeAll | dep/apps/er-coap-07/er-coap-07-transactions.c:186-199 | As many checks as transactions are listed leave every listed transaction waiting for its timer |
| Transactions.DueIsServed | dep/apps/er-coap-07/er-coap-07-transactions.c:177-199 | A transaction whose interval is over is sent exactly once more when the timers are served, and then waits again or has been given up with that transmission |
| Transactions.FirstIntervalIff | dep/apps/er-coap-07/er-coap-07-transactions.c:110-113 | The initial interval takes exactly the values from two to three seconds |
| Transactions.EveryTransactionIsServed | dep/apps/er-coap-07/er-coap-07-transactions.c:77-199 | With timers served as they run out, a transaction first sent at t0 with interval I is at any later time in its block with exactly the transmissions due of t0, t0 + I, t0 + 3 I, t0 + 7 I, t0 + 15 I, or has been given up after all five, or has been cleared by a caller; past t0 + 15 I only the last two are left |
| Transactions.NewIsFoundIff | dep/apps/er-coap-07/er-coap-07-transactions.c:77-183 | A new transaction gets a block unless all are in use, and is found under its message id exactly when no other listed transaction has that id |
| Transactions.Layer.NewTransaction | dep/apps/er-coap-07/er-coap-07-transactions.c:78-95 | The first unused block with counter 0, at the end of the list; no change if all four are in use |
| Transactions.Layer.SendTransaction | dep/apps/er-coap-07/er-coap-07-transactions.c:98-154 | A confirmable transaction below the limit gets its first or doubled interval and a restarted timer, one at the limit is given up, any other is released |
| Transactions.Layer.ClearTransaction | dep/apps/er-coap-07/er-coap-07-transactions.c:157-167 | Timer stopped, taken off the list, block free, the others untouched |
| Transactions.Layer.CheckTransactions | dep/apps/er-coap-07/er-coap-07-transactions.c:186-199 | In list order, every transaction whose timer is not running is counted and sent again, up to the first one given up |
| Transactions.Layer.GetByMid | dep/apps/er-coap-07/er-coap-07-transactions.c:170-183 | The first listed transaction with the message id, or none |
| WhereParser.EvaluateClause | dep/apps/antelope/aql-parser.c:423-468 | Compiling an unparenthesised WHERE clause with at most seven identifiers and executing it returns the clause's value for every valuation, or MATH_ERROR when a division in it is by zero |
| WhereParser.Parser.ParseWhere | dep/apps/antelope/aql-parser.c:423-468 | The bytes left by gaps, shifts and back-patching are the prefix code of the clause, chains nesting to the right |
| WhereParser.Parser.ParseTail | dep/apps/antelope/aql-parser.c:436-463 | One connective and what follows it: the operator is shifted in before the comparison emitted last |
| WhereParser.Parser.EmitConnective | dep/apps/antelope/aql-parser.c:441-447 | Shift, patch, set_end: the emitted prefix stays, the operator stands before the last comparison |
| WhereParser.Parser.ParseComparison | dep/apps/antelope/aql-parser.c:371-421 | The comparison's code is in the buffer, in front of it everything as before |
| WhereParser.Parser.ParseRight | dep/apps/antelope/aql-parser.c:412-420 | The right side after the patched relation |
| WhereParser.Parser.ParseLeft | dep/apps/antelope/aql-parser.c:377-383 | The gap and the left side behind it |
| WhereParser.Parser.ParseExpr | dep/apps/antelope/aql-parser.c:311-369 | An operand, or two joined by one arithmetic operator that is shifted in before them |
| WhereParser.Parser.ParseOperation | dep/apps/antelope/aql-parser.c:337-365 | The second operand, the shift and the patched arithmetic operator |
| WhereParser.Parser.ParseOperand | dep/apps/antelope/aql-parser.c:288-309 | An identifier or an integer becomes an operand |
| WhereParser.Parser.EmitOperator | dep/apps/antelope/aql-parser.c:341-365 | What is emitted from a position on moves up by one operator, which is patched in |
| Clauses.CompiledCodeMeansTheClause | dep/apps/antelope/lvm.c:380-404 | A buffer that starts with the clause's code makes lvm_execute return the clause's meaning under every valuation |
| Clauses.MeaningPreserved | dep/apps/antelope/aql-parser.c:311-468 | The term that the code stands for means what the clause means |
| Lvm.ExecuteCorrect | dep/apps/antelope/lvm.c:166-404 | Executing a buffer that starts with the code of a condition returns its value, or MATH_ERROR exactly when some division in it is by zero |
| Lvm.RunLogicCorrect | dep/apps/antelope/lvm.c:222-298 | eval_logic on the code of any nested condition: its value, and the cursor right behind it |
| Lvm.RunExprCorrect | dep/apps/antelope/lvm.c:166-219 | eval_expr on the code of any arithmetic term: its 32-bit value, and the cursor right behind it |
| Lvm.DivisionTruncates | dep/apps/antelope/lvm.c:205-210 | Division fails exactly for the divisor 0; otherwise, but for the smallest long by -1, the remainder left by the quotient is smaller than the divisor and is 0 or has the sign of the dividend |
| Lvm.ArithmeticWraps | dep/apps/antelope/lvm.c:196-204 | Sums, differences and products differ from the exact ones by multiples of 2^32, and not at all where those fit a long |
| Machine.Instance.Run | dep/apps/antelope/lvm.c:380-404 | The stack machine moving p->ip computes what the evaluation over bytes says |
| Machine.Instance.EvalLogic | dep/apps/antelope/lvm.c:222-298 | The value or error of the condition at the cursor, both sides of a connective always being evaluated, and the cursor behind it |
| Machine.Instance.EvalExpr | dep/apps/antelope/lvm.c:166-219 | The 32-bit value or the first error of the term at the cursor, and the cursor behind it |
| Machine.Instance.ShiftForOperator | dep/apps/antelope/lvm.c:330-348 | memmove by one operator: the moved bytes, the gap, and the overrun of the buffer that the bound does not exclude |
| Machine.Instance.JumpToOperand | dep/apps/antelope/lvm.c:315-327 | The cursor moves over the room for an operator, whose bytes stay as they are; the former end is returned for patching |
| Machine.Instance.SetEnd | dep/apps/antelope/lvm.c:357-370 | The cursor moves, or the error flag is set at the end of the buffer |
| Machine.Instance.DeriveRelation | dep/apps/antelope/lvm.c:583-687 | The recursive inference with its two derivation tables computes what the inference over bytes says; overrun exactly when the entry behind the seven derivations is used |
| Ranges.DerivedRangesAreSound | dep/apps/antelope/lvm.c:583-687 | For variable-left, constant-right comparisons and ORs whose sides constrain the same variables, every valuation that makes the condition true lies in every derived range |
| Ranges.ConjunctiveBoxIsExact | dep/apps/antelope/lvm.c:497-537 | For AND-only conditions without wrapping bounds the derived box is exactly the set of satisfying valuations |
| Ranges.ConjunctiveBoxIff | dep/apps/antelope/lvm.c:497-537 | For all AND-only conditions: the box is exactly the set of satisfying valuations if and only if no strict comparison wraps at the end of its type, or some range is empty |
| Ranges.ComparisonIsSoundIff | dep/apps/antelope/lvm.c:625-676 | A comparison's range is sound exactly when its variable is on the left, turning the operator round makes no difference, or the range is not that of a variable |
| Ranges.OrIsSoundIff | dep/apps/antelope/lvm.c:540-580 | The union of two sound derivations is sound exactly when, for each side that some valuation satisfies, the other side leaves free every variable that the first does not mention |
| Ranges.DeriveCorrect | dep/apps/antelope/lvm.c:583-687 | On the code of a condition, inference over bytes and over terms agree |
| Ranges.DerivedIff | dep/apps/antelope/lvm.c:583-660 | Ranges are derived for exactly the conditions made of AND, OR and comparisons of two operands other than <>, not both variables; between two constants the low byte of the right one has to name an entry of the local table |
| Ranges.UsesLastIff | dep/apps/antelope/lvm.c:583-690 | The derivation goes behind the table of variables exactly for a comparison of two constants of which the right one has the low byte 7, by itself or in a condition that ranges are derived for |
| MaxHeap.Heap.InsertItem | dep/apps/antelope/index-maxheap.c:447-491 | Every insertion keeps the tree and the buckets consistent; it appends exactly the pair to the responsible bucket, after splitting that if it is full, or nothing, and fails exactly when the responsible bucket is full on the last usable level |
| MaxHeap.InsertAll | dep/apps/antelope/index-maxheap.c:447-491 | After any run of insertions the stored pairs are exactly the multiset of those that succeeded |
| MaxHeap.FindFirst | dep/apps/antelope/index-maxheap.c:668-747 | The first result of an equality search is a value inserted under the key, and there is none exactly when nothing was inserted under it |
| MaxHeap.Drain | dep/apps/antelope/index-maxheap.c:668-747 | A search followed to its end returns the values at exactly the results of its range, in that order, for any contents, keys stored repeatedly, ranges that wrap round, and the attribute flag for unique values included |
| MaxHeap.Heap.GetNext | dep/apps/antelope/index-maxheap.c:668-747 | One call returns the next of the pairs that are left to the iterator, or nothing when none is left, also after another iterator has taken over the cache |
| MaxHeap.Heap.IndexGetNext | dep/apps/antelope/index.c:302-327 | The same with the test that ends an equality search on unique values after one pair |
| HeapSearch.ResultsSound | dep/apps/antelope/index-maxheap.c:668-747 | The results of a search over fewer than 65536 keys, as every granted iterator has, are pairs whose keys lie in its range, each once |
| HeapSearch.ResultsCompleteIff | dep/apps/antelope/index-maxheap.c:668-747 | A search over fewer than 65536 keys returns every pair whose key lies in its range if and only if no bucket nearer the root holds a pair of one of these keys in an earlier slot (cache.start is never taken back), and the last key is there at most once where only one of its pairs is asked for |
| HeapSearch.HitsCompleteIff | dep/apps/antelope/index-maxheap.c:700-722 | The same for the pairs of one key |
| HeapSearch.NoHitsIff | dep/apps/antelope/index-maxheap.c:668-747 | Nothing is found under a key exactly when no pair of that key is stored |
| HeapSearch.KeyRangeIff | dep/apps/antelope/index-maxheap.c:738-746 | The keys looked up are those of the values from minimum to maximum, modulo 65536, whether or not the minimum wraps round on the way |
| MaxHeap.Heap.BucketSplit | dep/apps/antelope/index-maxheap.c:416-444 | The two heap_insert calls put the halves of the interval at the two children, or report failure without a change |
| MaxHeap.Heap.HeapInsert | dep/apps/antelope/index-maxheap.c:225-259 | The slot the walk ends at gets the interval; nothing changes when there is none |
| MaxHeap.Heap.HeapFind | dep/apps/antelope/index-maxheap.c:262-291 | The next node on the walk whose interval contains the hash, and the slot of its first child; nothing once a slot is empty or on the last level |
| HeapTree.InsertWalkReaches | dep/apps/antelope/index-maxheap.c:225-259 | In a tree of halved intervals, heap_insert's walk passes through the slot the interval belongs to |
| HeapTree.SplitWalks | dep/apps/antelope/index-maxheap.c:416-444 | Where bucket_split's two heap_insert calls put the halves |
| HeapTree.SplitKeepsTree | dep/apps/antelope/index-maxheap.c:416-444 | Splitting keeps every non-empty slot equal to the interval that belongs there, rooted at [0, 65535] |
| HeapTree.PathComplete | dep/apps/antelope/index-maxheap.c:262-291 | Every inner node that is there and whose interval contains the hash lies on the path successive heap_find calls walk |
| HeapTree.NextOnPath | dep/apps/antelope/index-maxheap.c:262-291 | Successive heap_find calls walk along the path of the hash |
| HeapTree.ChildrenPartition | dep/apps/antelope/index-maxheap.c:416-444 | The children's intervals are disjoint and together make up the parent's |
| HeapTree.ChildrenHalve | dep/apps/antelope/index-maxheap.c:416-445 | The left child gets the lower half of the interval and the right child the upper half, equally long |
| Buckets.KeyIff | dep/apps/antelope/index-maxheap.c:645-660 | Values of 16 bits are their own keys; two values share a key exactly when they are a multiple of 65536 apart |
| Select.Run | dep/apps/antelope/relation.c:675-870 | The index of the last indexed attribute with a derived range is followed if that range is narrow, otherwise the relation is scanned; either way the rows on which the condition holds are reported, each once, for every condition whose derived ranges are sound and, if an index is followed, whose range can be read completely; a scan needs neither |
| Select.SelectIndex | dep/apps/antelope/relation.c:631-672 | The loop picks the last indexed attribute with a derived range, min_range never being updated; that is one with the smallest range exactly when no earlier candidate has a smaller one |
| Select.WiderRangeChosen | dep/apps/antelope/relation.c:639-660 | An input for which a wider range is picked than the comment promises |
| Select.IndexSearch | dep/apps/antelope/relation.c:735-870 | Following an index reports exactly the rows that satisfy the condition among those its results lead to, in their order, whatever the range and the condition |
| Select.IndexReports | dep/apps/antelope/relation.c:735-870 | For every condition and every range of fewer than 65536 keys, as every granted iterator has: the rows reported satisfy the condition and have the key of a value in the range, each once; all of them if the keys of the range can be read |
| Select.SearchIsScanIff | dep/apps/antelope/relation.c:735-870 | For ranges of fewer than 65536 keys: an index search reports the same rows as a scan exactly when every satisfying row is delivered, that is, if the keys can be read, when the key of every satisfying row is that of a value in the range |
| Select.SelectionIff | dep/apps/antelope/relation.c:675-870 | The same for the range derived from the condition; it holds whenever the derived ranges are sound |
| Select.AlignedSelection | dep/apps/antelope/relation.c:675-870 | They are sound for conditions whose comparisons have the variable on the left and whose ORs constrain the same variables on both sides, so those are selected rightly along every index that can be read |
| Select.OneSidedOrLosesRows | dep/apps/antelope/relation.c:675-870 | With an index on a, WHERE a = 5 OR b = 7 follows it over [5, 5] and loses every row with b = 7 whose key for a is not 5 |
| Select.TwinKeysAreNotReadable | dep/apps/antelope/index.c:302-327 | On unique values two rows that differ by a multiple of 65536 have one key: a search that ends there does not read both |
| Select.Scan | dep/apps/antelope/relation.c:735-870 | The full scan reports the satisfying rows |
| Select.Handle.ProcessSelect | dep/apps/antelope/relation.c:735-850 | One call: the tuple delivered by the index or the next row, the condition evaluated on it, the result code |
| Select.GetIterator | dep/apps/antelope/index.c:237-300 | An iterator is granted exactly when max - min in unsigned arithmetic is 0 or at most one 64th of the number of rows; an empty range may be granted one |
| Select.GrantedIff | dep/apps/antelope/index.c:259-285 | An index is used for a single value and for ranges that span at most a 64th of the rows, a range whose minimum is above its maximum spanning the rest of the type |
| JsonRoundTrip.RoundTripIff | dep/apps/json/jsonparse.c:112-186 | Reading back a printed tree gives exactly its tokens, with the values as written, if and only if the root is an object, no number is negative, what follows a backslash in a string is not a quote, and every pair's value ends in an atom; the tokenizer is then at depth 0 at the end of the text without an error |
| JsonRoundTrip.PrintAndRead | dep/apps/json/jsontree.c:131-213 | The same for the explicit-stack printer and the stateful tokenizer run one after the other |
| JsonRoundTrip.StreamCarries | dep/apps/json/jsonparse.c:107-210 | The tokens with a value are, in order, the names, strings and numbers of the tree: their texts denote them |
| JsonRoundTrip.ReadValue | dep/apps/json/jsonparse.c:112-186 | Reading one value of any shape in a context that admits it |
| JsonRoundTrip.ReadItems | dep/apps/json/jsonparse.c:112-186 | Reading the members of a container from any position, including the tokens that close pairs |
| JsonRoundTrip.ScanIff | dep/apps/json/jsonparse.c:60-75 | The scan of a quoted string ends at its closing quote exactly when every backslash hides a character other than a quote |
| JsonRoundTrip.RootRejected | dep/apps/json/jsonparse.c:112-186 | At depth 0 only an object is accepted |
| JsonTree.Context.PrintAll | dep/apps/json/jsontree.c:131-213 | Repeated jsontree_print_next prints what the recursive printer prints |
| JsonTree.Context.PrintNext | dep/apps/json/jsontree.c:131-213 | Each step prints the next piece of what remains, within the ten stack levels, and reports whether anything remains |
| JsonTree.DownRemaining | dep/apps/json/jsontree.c:163-176 | Stepping down to a child: what remains is the text leading to it and what remains from there |
| JsonTree.UpRemaining | dep/apps/json/jsontree.c:205-212 | Backing up a level: what remains on top, then what remains below |
| JsonTree.Context.WriteInt | dep/apps/json/jsontree.c:82-101 | The digits collected from the back of a ten-byte buffer are the decimal form |
| JsonTree.IntTextDenotes | dep/apps/json/jsontree.c:82-100 | The text of a number is its decimal notation: digits whose value is the number, a minus sign for negative ones, no leading zeros |
| JsonTree.EscapedIsUndone | dep/apps/json/jsontree.c:66-80 | Every quote in a string is escaped, and reading the escaped quotes as quotes gives the string back |
| JsonTree.Context.WriteString | dep/apps/json/jsontree.c:67-79 | The string in quotes, its quotes escaped |
| JsonParse.Parser.NextToken | dep/apps/json/jsonparse.c:112-186 | Blanks are skipped; the returned type, the value slice, the stack, the type last seen and the error are those the grammar of the switch prescribes for the next character |
| JsonParse.NextIff | dep/apps/json/jsonparse.c:111-205 | The first character behind blanks is accepted exactly where it is admitted: a closing brace in an object or behind a pair with a value, a closing bracket in an array, a comma in an array or behind such a pair, strings and arrays in any container, digits in arrays and pairs, opening braces and colons anywhere; otherwise its error is left; the stack overflows exactly when something is opened on a full one |
| JsonParse.Parser.TakeAtom | dep/apps/json/jsonparse.c:60-87 | A string ends behind the first unescaped quote, a number before the first character that is not a digit or a point; start and length of the value |
| DelugeNetwork.ImageIntegrity | dep/apps/deluge/deluge.c:432-580 | For any number of nodes and any run with loss, repetition and reordering in which every packet delivered fits (is ignored, or carries the data it is labelled with), every complete page of every node is that page of its version's image, every packet collected of the page being received is right, and all pages below it are complete |
| DelugeNetwork.PromotedNodesAreUpdated | dep/apps/deluge/deluge.c:466-497 | If moreover every profile followed is truthful (announces its own version for every page), a node whose version is the one it was updating to holds that version's whole image |
| DelugeNetwork.StaysSoundIff | dep/apps/deluge/deluge.c:399-580 | In any run from a sound network, all nodes stay sound throughout if and only if every packet delivered fits |
| DelugeNetwork.StepKeepsSoundIff | dep/apps/deluge/deluge.c:399-580 | The same for one step of any node, careful or not |
| DelugeNetwork.StaysUniformIff | dep/apps/deluge/deluge.c:399-580 | In any run, all nodes keep pages of the version they are updating to, complete once promoted, if and only if every profile followed is truthful |
| DelugeNetwork.StepKeepsUniformIff | dep/apps/deluge/deluge.c:399-580 | The same for one step |
| DelugeNetwork.VersionPromotion | dep/apps/deluge/deluge.c:432-580 | In every run, whatever is delivered, all pages below the one being received are complete, and a version changes only to the one being updated to, with all pages complete |
| DelugeNetwork.CarefulRunsAreFitting | dep/apps/deluge/deluge.c:399-429 | If no node serves a request for its own first missing page, every packet delivered fits |
| DelugeNetwork.SettledRunsAreTruthful | dep/apps/deluge/deluge.c:501-522 | If no node sends its profile during its own update, every profile followed is truthful |
| DelugeProgress.PromotionIff | dep/apps/deluge/deluge.c:432-498 | Packets, whichever and however many, can promote a node to the version it is updating to if and only if the page being received and all pages behind it are missing |
| DelugeProgress.StuckForGood | dep/apps/deluge/deluge.c:445-486 | Otherwise no sequence of packets ever changes its version |
| DelugeProgress.NeverStuck | dep/apps/deluge/deluge.c:399-580 | In every run in which only truthful profiles are followed, whatever packets are delivered, every node has been promoted or can still be promoted by packets |
| DelugeProgress.UnsettledProfileSticks | dep/apps/deluge/deluge.c:501-580 | After following a profile that was sent during an update, the new version's own profile leaves a node stuck |
| DelugeNetwork.StepKeepsHealthy | dep/apps/deluge/deluge.c:399-580 | Every careful step keeps the network healthy (sound nodes, even page versions, only genuine packets), and the packet it delivers fits |
| DelugeNetwork.StepInRange | dep/apps/deluge/deluge.c:348-580 | All page and packet numbers in the network stay in range |
| DelugeNetwork.MissingPageIsMislabelled | dep/apps/deluge/deluge.c:399-429 | Three nodes: a request for the server's first missing page is answered with old data under the new label, and the requester ends up claiming version 2 with the data of version 1 |
| DelugeNetwork.UnsettledProfileMislabels | dep/apps/deluge/deluge.c:501-522 | A profile sent during an update makes its follower claim the old version with the new data |
| DelugeSafety.PacketKeepsSoundIff | dep/apps/deluge/deluge.c:432-498 | A packet, intact or damaged, whenever and however often it comes, keeps the node sound exactly when it fits: it is ignored, carries the data it is labelled with, or is damaged and changes no slot that has been collected |
| DelugeSafety.DamagedPacketIff | dep/apps/deluge/deluge.c:454-462 | A damaged packet is written before its CRC is looked at: the node stays sound exactly when it is ignored, its slot is not collected yet, or the content does not change |
| DelugeSafety.ProfileRestarts | dep/apps/deluge/deluge.c:525-580 | A newer profile restarts exactly the pages whose version grows, with nothing collected, adds missing pages of version 0 and drops what is queued; receiving goes on at the first missing page; any other profile changes nothing |
| DelugeSafety.ProfileKeepsSoundIff | dep/apps/deluge/deluge.c:525-580 | A profile keeps the node sound exactly when it does not make an earlier page the one to be received while leaving a partly received page as it is |
| DelugeSafety.PacketPromotes | dep/apps/deluge/deluge.c:466-486 | Any packet leaves the pages that have been passed complete, and promotes the version only to the one being updated to and only when every page is complete |
| Deluge.Node.HandlePacket | dep/apps/deluge/deluge.c:432-498 | Ignored unless for the page being received, under its version and still missing; otherwise the slot is overwritten, an intact packet is collected, and the fourth completes and stores the page, moves on to the next one and after the last page promotes the version |
| Deluge.Node.HandleProfile | dep/apps/deluge/deluge.c:525-580 | A newer profile drops what is queued, restarts every page whose version grows, keeps the others, adds missing pages as incomplete, and receiving goes on at the first incomplete page |
| Deluge.Node.HandleRequest | dep/apps/deluge/deluge.c:399-429 | A request for the own version and a page up to the first missing one is queued, added to the one for the same page |
| DelugeExchange.RequestStep | dep/apps/deluge/deluge.c:399-429 | Only requests for the own version and a page up to the first missing one are followed, and they change nothing but the queue: the packets asked for are added to those queued for the same page and replace those of another |
| DelugeExchange.RequestsAreAnswered | dep/apps/deluge/deluge.c:348-429 | All packets asked for in any number of requests for a page are sent, each once, in order, as stored, and nothing is queued afterwards; requests for pages from 128 on are never answered, the queued page being kept in eight bits with sign |
| DelugeExchange.AnswerIsMissing | dep/apps/deluge/deluge.c:240-429 | What is sent in answer to a request is exactly what the asking node lacks of the page |
| DelugeExchange.ExchangeHandsOverPage | dep/apps/deluge/deluge.c:240-498 | A node that asks for the page it is receiving, and gets every packet that a node having the page sends in answer, has the page complete with the data of its version, goes on behind it, and with the last page has the version it was updating to |
| Deluge.Node.Transmit | dep/apps/deluge/deluge.c:348-396 | The packets asked for of the queued page, as stored and under the page's current version, in order; then the queue is empty |
| Deluge.Node.HighestAvailablePage | dep/apps/deluge/deluge.c:227-238 | The first page that is not complete |
| Tunslip.RewriteKeepsValidIff | dep/tools/tunslip.c:643-656 | A packet of any length without id that passes check_ip passes it again after the id has been filled in and its complement added to the checksum, in either host byte order, exactly when the sums of header and checked data change by multiples of 65535 |
| Tunslip.KeepsSumsIff | dep/tools/tunslip.c:643-656 | From 20 bytes on that is always so, unless the header length field is 2 and the id is not 0 or 65535 |
| Tunslip.AssembleReply | dep/tools/tunslip.c:302-328 | Every packet put together for a DHCP client passes check_ip |
| Tunslip.CheckIp | dep/tools/tunslip.c:365-413 | The result code: version, length, header checksum, then the TCP, UDP or ICMP checksum with a disabled UDP checksum accepted; OutOfBuffer where the C code would read behind the buffer |
| Tunslip.CheckIff | dep/tools/tunslip.c:365-413 | A packet passes exactly when its version is 4, its length field is the length, the words of its header add up to 0 modulo 65535 and, for TCP, UDP and ICMP, the data lies in the buffer and, unless it is UDP without a checksum, adds up to 0 with the pseudo header |
| Tunslip.HeaderDroppedIff | dep/tools/tunslip.c:368-382 | The codes 1 to 4 name exactly a wrong version, a length field above or below the length, and a wrong header checksum |
| Tunslip.DataDroppedIff | dep/tools/tunslip.c:384-410 | The codes 5, 6 and 7 name exactly a wrong TCP, UDP or ICMP checksum behind a right header |
| Checksum.SumCongruent | dep/tools/tunslip.c:344-362 | ip4sum is congruent to the sum of the 16-bit words modulo 65535 |
| Checksum.CorrectIff | dep/tools/tunslip.c:344-382 | The sum is 0 or 0xffff exactly when the words add up to 0 modulo 65535 |
| Checksum.AddComplement | dep/tools/tunslip.c:644-650 | Adding the complement of the id with end-around carry subtracts it, in either host byte order |
| Checksum.Ip4sum | dep/tools/tunslip.c:344-362 | The loop over words with end-around carry, an odd byte counting as the high one, computes the recursive sum |
| Checksum.TotalSet | dep/tools/tunslip.c:644-650 | Replacing one aligned word changes the sum of the words by the difference |
| SerialLine.Output.WriteToSerial | dep/tools/tunslip.c:628-681 | Invalid packets are dropped, packets without id get one and are dropped for it exactly when that disturbs a checksum, the rest are framed and queued |
| SerialLine.GetsIdIff | dep/tools/tunslip.c:643 | An id is filled in exactly when it is 0 and bit 6 of the seventh octet is set on a big-endian host, or of the eighth octet on a little-endian one |
| SerialLine.FrameIsSlip | dep/tools/tunslip.c:662-679 | The framing of RFC 1055: octet 192 only at the end of a packet, 219 220 for 192 and 219 221 for 219 |
| SerialLine.FrameRoundTripIff | dep/tools/tunslip.c:455-585 | Reading back a framed packet gives exactly that packet if and only if it has between 1 and 1999 bytes |
| SerialLine.FramesRoundTrip | dep/tools/tunslip.c:455-585 | Any number of packets, one after the other, are read back as sent |
| SerialLine.ReadConcat | dep/tools/tunslip.c:455-585 | It does not matter in which portions the characters arrive, an escape character at the end of one included |
| SerialLine.SerialReader.ReadCharacter | dep/tools/tunslip.c:455-585 | The reader's buffer, and the packets it completes |
| SerialLine.Output.Flush | dep/tools/tunslip.c:606-625 | Partial writes take the next bytes in order: what was written and what waits is always what was queued |
| SerialLine.Output.SendFrame | dep/tools/tunslip.c:662-679 | The escaped packet and its end are queued, or the queue overflows |
| Codeprop.PrefixSafety | dep/apps/codeprop/codeprop.c:203-358 | In every run in which the first packet of an image to arrive is the one for address 0 or carries its bytes, the stored bytes are a prefix of the image, addresses stay within it, and every program started is a whole image |
| Codeprop.StaysSoundIff | dep/apps/codeprop/codeprop.c:203-358 | The stored prefix is right throughout a run if and only if the first packet of every image is right |
| Codeprop.FirstPacketIff | dep/apps/codeprop/codeprop.c:291-325 | The first packet of a new image is stored at address 0 whatever its address: right exactly when that is its address or its bytes are the same |
| Codeprop.MisalignedStart | dep/apps/codeprop/codeprop.c:291-345 | If the first of two packets is lost, the program is started with the second half twice |
| Codeprop.StepKeepsSoundIff | dep/apps/codeprop/codeprop.c:203-358 | A step of sender, receiver or network keeps the stored prefix right exactly when it does not deliver such a wrong first packet |
| Codeprop.ReceiverNode.HandleData | dep/apps/codeprop/codeprop.c:278-358 | A packet of the image being received is stored if it is the next one and answered with a NACK if it is a later one; the first packet of a newer image is stored at address 0; a complete image is started |
| Codeprop.NackNamesGap | dep/apps/codeprop/codeprop.c:326-345 | While an image is being received, exactly the packet behind the stored prefix is taken, and exactly those from further on are answered by a NACK, for the length of that prefix |
| Codeprop.FirstPacketAnswer | dep/apps/codeprop/codeprop.c:291-325 | A newer image is begun by whatever packet of it comes first, answered by a NACK for address 0 unless that is its address; an image without bytes is complete at once |
| Codeprop.LostPacketIsMadeUpFor | dep/apps/codeprop/codeprop.c:203-358 | A lost packet is made up for: a later packet or the timeout brings a NACK, the sender goes back to it, and the packet sent again extends the stored prefix |
| Codeprop.SenderNode.SendData | dep/apps/codeprop/codeprop.c:203-245 | The next at most 32 bytes of the image under their address, which then moves on |
| Machine.Instance.SetOperator | dep/apps/antelope/lvm.c:407-420 | An operator's node type and code at the cursor |
| Machine.Instance.SetOperand | dep/apps/antelope/lvm.c:423-439 | An operand's node type, type and value at the cursor |
| Machine.Instance.RegisterVariable | dep/apps/antelope/lvm.c:442-460 | A name gets the first free of the seven slots, or keeps the one it has; an eighth name is an overrun |
| Machine.Instance.SetVariable | dep/apps/antelope/lvm.c:476-488 | An operand that refers to the name's slot; an overrun if it has none |
| Machine.Instance.SetVariableValue | dep/apps/antelope/lvm.c:463-473 | The value of the name's slot; an overrun if there is none |
| Machine.Instance.CreateIntersection | dep/apps/antelope/lvm.c:497-537 | The slot-wise intersection of two derivations, a range known on one side only being kept |
| Machine.Instance.CreateUnion | dep/apps/antelope/lvm.c:540-580 | The slot-wise hull of two derivations, a range known on one side only being kept |
| WhereParser.Parser.ParseRelation | dep/apps/antelope/aql-parser.c:385-415 | The relation is patched into the gap in front of the left side |
| WhereParser.Parser.ParseHead | dep/apps/antelope/aql-parser.c:428-430 | The next comparison of the clause is emitted behind what is there |
| WhereParser.Parser.ParseNext | dep/apps/antelope/aql-parser.c:441-462 | A connective is shifted in before the comparison emitted last, and the next comparison follows |
| Blockwise.CallService | dep/apps/er-coap-07/er-coap-07-engine.c:148-152 | The handler's payload, status and next offset for both kinds of resource |
| Blockwise.Client.Take | dep/apps/er-coap-07/er-coap-07-engine.c:500-514 | One response: delivered and counted if it is the awaited block, otherwise counted as an error; without a Block2 option number and more flag keep their old values |
| MaxHeap.Heap.BucketAppend | dep/apps/antelope/index-maxheap.c:394-413 | The pair is appended to the bucket, or nothing changes because it is full |
| MaxHeap.Heap.FindBucket | dep/apps/antelope/index-maxheap.c:452-459 | The deepest node responsible for the key |
| MaxHeap.Heap.VisitPath | dep/apps/antelope/index-maxheap.c:681-698 | The nodes responsible for the key from the root down |
| MaxHeap.Heap.SearchBucket | dep/apps/antelope/index-maxheap.c:704-722 | One bucket from cache.start on: the next pair of the key, or the search goes on in the bucket above at the same slot |
| MaxHeap.Heap.Search | dep/apps/antelope/index-maxheap.c:700-730 | The buckets from the bottom up: the next of the pairs of the key that are left, or none is left |
| Select.Handle.ProcessTuple | dep/apps/antelope/relation.c:765-842 | The row is fetched, its attributes become the machine's variables, and it is reported exactly when the condition is true |
| DelugeSafety.SentGenuine | dep/apps/deluge/deluge.c:348-374 | The packets sent of a complete page carry the data they are labelled with |
| DelugeSafety.InitialSound | dep/apps/deluge/deluge.c:192-224 | A node with a complete file starts sound |
| SerialLine.Output.Send | dep/tools/tunslip.c:591-597 | One byte at the end of the queue, or an overflow |
| SerialLine.FillIn | dep/tools/tunslip.c:643-650 | The id and the checksum field in place, every other byte unchanged |
| Codeprop.SenderNode.TakeNack | dep/apps/codeprop/codeprop.c:252-257 | A NACK is followed only to a lower address |
| Codeprop.ReceiverNode.Timeout | dep/apps/codeprop/codeprop.c:333-342 | A NACK for the current address while receiving |

## Left out

- Lines with a condition in the table state it exactly; where the natural property fails, the member named gives the input (CoapMessage.CountIff, Ranges.ComparisonIsSoundIff, Ranges.OrIsSoundIff, Select.WiderRangeChosen, Select.OneSidedOrLosesRows, HeapSearch.ResultsCompleteIff, Blockwise.ReceivedIff, WellKnown.WellKnownCore, Blockwise.TagNamesPayloadIff, Transactions.CheckBeforeSend, JsonRoundTrip.RoundTripIff, DelugeSafety.ProfileKeepsSoundIff, DelugeNetwork.MissingPageIsMislabelled, DelugeNetwork.UnsettledProfileMislabels, DelugeProgress.UnsettledProfileSticks, SerialLine.FrameRoundTripIff, Codeprop.MisalignedStart).
- Sizes of C types: `int`, `long` and enumerations are 32 bits, `short` 16; enumerations are stored little-endian in the code buffer.
- Reads and writes outside an array are not given a meaning: a result (Fault, Overread, OutOfData, OutOfBuffer) or a flag (overrun, overflow) says that one would happen, and nothing is claimed from there on.
- CoapCount.DeliveredExactlyWhen: is stated for headers of at most COAP_MAX_HEADER_SIZE, which is 47 although its comment says 50; longer ones are refused by CoapSerializer.Serialize.
- CoapSerializer.Serialize: the buffer has room for what is written before the header limit is checked, which the C code does not test; the seventeen guarded blocks are one loop over the table of option numbers.
- CoapParser.Packet.Parse: the bitmap of options is a set; the buffer has one byte behind the datagram for the terminating zero.
- CoAP tokens, observers, separate responses, the error responses of coap_receive and query variables are not modelled.
- WellKnown.WellKnownCore: the outcome of the rt filter is a flag of each resource; the payload is the part of the buffer that coap_receive sends, bufpos itself may be larger than the block.
- Blockwise.Fetch: is stated for representations of at most 2^20 - 1 blocks, the limit of the block number, and for whole bodies that fit into one block; offsets from 2^31 on, which the int32_t of the handlers cannot hold, are natural numbers here.
- Transactions.RetransmissionInvariant: clock values do not wrap round; callbacks run after the event that causes them.
- WhereParser.EvaluateClause: parenthesised clauses and chains of three operands, which the parser does not emit correctly, are read by the model but nothing is claimed about their code; string and floating-point operands are rejected tokens.
- The C tables of variables and derivations have seven entries, although the tests against LVM_MAX_VARIABLE_ID admit eight: a clause with more than seven identifiers, or a comparison of two constants whose right one has the low byte 7, goes behind them. Machine.Instance sets overrun then, and WhereParser.EvaluateClause is stated for at most seven identifiers; what lookups for unknown names read there is not modelled.
- Machine.Instance: print_* functions and lvm_set_type are left out; lexing is left out, the parser works on tokens.
- MaxHeap: the cache of loaded buckets, loading an index from storage and failing storage are left out, buckets are read as stored; hash keys and tuple ids are 16 bits, minimum and maximum 32.
- Select.Run: joins, aggregates, result storage, REMOVE with its inverse logic and rows that cannot be read are left out; the attributes of the relation are the variables of the condition, and an index holds every row once (Select.Indexes).
- JsonRoundTrip.RoundTripIff: callbacks in the tree, counts over 255 and the smallest int, whose negation overflows, are left out; both depth limits are assumed.
- Deluge: timers, summaries, the state variable, object ids and the dispatcher's length checks only decide when a step happens and are left out; a page is its four packets; a shrinking page list, whose copy overruns the new array, is modelled as a shorter list.
- Deluge versions and page numbers are natural numbers; that they are uint8_t and wrap round at 256 is not modelled.
- DelugeNetwork.ImageIntegrity: all nodes have the same number of pages; new pages of a growing object get version 0 and are covered by DelugeSafety only.
- Tunslip.AssembleReply: which options are copied into the reply is left open, the message being any bytes; requests relayed to the server, address announcements and debug lines are left out.
- Tunslip.CheckIp: packets stand in a buffer of at least 60 bytes, the longest header.
- DelugeProgress.NeverStuck: an object has at least one page; whether the packets that would promote a node are ever sent is left open.
- Codeprop.PrefixSafety: the TCP upload is one step that happens only while nothing is being sent; the node's sender and receiver do not share their address counter.
- Not modelled at all: index-memhash.c, index-inline.c, er-coap-03, codeprop-tmp.c, the EMMA agent files under src, user interfaces, sockets, flash and radio drivers.
