# Verified models of the messaging client's state machines and codecs

This project models the parts of the repository that keep state or transform data, and proves what they guarantee.

| files | subject |
|---|---|
| `lthash.dfy`, `appstate_*.dfy` | application-state synchronisation: the homomorphic hash, patches, snapshots, the SQL rows, paging, encoding, what the MACs bind and the upload with conflict retry |
| `binary_*.dfy` | the binary XML codec: encoder, decoder, round trip, grammar, locality and attribute order |
| `reporting_*.dfy` | the protobuf filter behind reporting tokens, and when its loop ends |
| `frame_*.dfy` | stream framing of the socket |
| `event_buffer*.dfy` | decryption with a buffer that survives crashes |
| `session_*.dfy` | the write-back cache of Signal sessions, with records as values and as shared objects |
| `recent_messages.dfy` | the ring of recently sent messages |
| `response_*.dfy` | the table of pending requests |
| `group_cache.dfy` | the cache of group members |
| `send_limiter*.dfy` | the per-account send limiter, for one send at a time and for several under way |
| `referral_*.dfy` | rewards and referral commissions |
| `bytes.dfy` | byte strings, `Option` and `Result` |

Each subject has specification functions that follow the source branch by branch, methods or classes in the source's own
imperative form that are proved equal to those functions, and theorems about the functions. The cryptographic primitives,
the protobuf library and the JSON encoding are arbitrary functions given as parameters; where a theorem needs that one of
them undoes another, its `requires` says so.

## What turned out differently from what one would expect

- A patch that SETs one index twice without a REMOVE after the first passes every check, but the plain SQL `INSERT` then
  violates the primary key after the version row has been written: the store claims a hash that its rows do not have.
  `AppStateTheorems.TornExactly` gives the exact condition. The same condition decides whether an encoded patch can be
  applied at all.
- The numbering of patches is not checked. `AppStateTheorems.PatchOutcome` says exactly when a badly numbered patch does
  harm, and `AppStateTheorems.LowerNumberedPatchIsInvisible` gives the patches that do.
- `receivedLength` counts the three header bytes of the first chunk. `FramingTheorems.ReassemblyAsWritten` says exactly
  for which cuts of a stream this does no harm; `FramingTheorems.Reassembly` holds for all cuts once only body bytes
  count.
- The hourly limit bounds a window that begins with a send, not every hour, and so does the daily limit.
  `SendLimiterExact` gives the exact conditions on the settings under which they bound every hour and every day. The
  default settings meet neither; `SendLimiter.SlidingBounds` always holds.
- A recent message that is added again is forgotten when its older slot is overwritten.
- `receiveResponse` sends outside the lock, so a cancellation in between makes it send to a closed channel.
  `ResponseWaiters.PanicsExactly` shows that this is the only way in which the table can panic.
- A plaintext is cleared not only after a handler succeeded: a handler that panics counts as having succeeded, and a
  version 3 or unknown payload that cannot be parsed is cleared, while a version 2 one is kept.
  `EventBufferTheorems.ClearedExactly` gives the exact condition.
- On malformed messages the extractor's index can move backwards, and its loop need not end.  The fields that turn it
  back are those with an overlong varint and those whose length is a negative 64-bit index (`ReportingWalk.LandsBack`);
  without them the loop always ends (`ReportingWalk.HarmlessTerminates`), and with them it goes on forever exactly when
  it comes back to an index (`ReportingWalk.TerminatesExactly`).  `ReportingWalk.OverlongVarintLoops` and
  `ReportingWalk.TenByteTagLoops` are two shapes that do.
- A configured field whose varint is cut off is copied as a bare tag, which then swallows the beginning of the field
  that is sorted behind it.  `ReportingTheorems.OutputWellFormed` gives the exact condition.
- The decoder accepts many byte strings that the encoder never writes.  `BinaryGrammar.DecodesExactly` says which, and what
  they mean.
- A node whose tag is empty or "0" is written but cannot be read back, and neither can any node around it.
- The comment in `message_safety.go:28` says that the limiter is safe across server instances, but the check and the
  recording are separate transactions: k calls under way at a time can record k sends at one moment
  (`SendLimiterConcurrent.KSendsAtOnce`).  The cooldown then holds between sends that are k places apart
  (`SendLimiterConcurrent.CooldownOverKSends`); the theorems about the hourly and daily limits are about serialised
  sends.
- A conflict may be answered with a snapshot, and the code does not ask for an empty collection then.
  `AppStateTheorems.SnapshotOnto` says when the hash still fits the map.

## Model

| member | source | states |
|---|---|---|
| `LTHash.PerformPointwiseWithOverflow` | whatsmeow-custom/appstate/lthash/lthash.go:45-58 | the in-place loop adds or subtracts two hashes as 64 little-endian 16-bit lanes with wrap-around, touching no other byte |
| `LTHash.LanesAreLittleEndian` | whatsmeow-custom/appstate/lthash/lthash.go:45-58 | every two bytes of the result are, low byte first, the sum or difference of the two numbers there modulo 2^16 |
| `LTHash.SubtractThenAddInPlace` | whatsmeow-custom/appstate/lthash/lthash.go:34-43 | the in-place updates equal subtracting all, then adding all, expanded MACs |
| `LTHash.Commute` | whatsmeow-custom/appstate/lthash/lthash.go:45-58 | updates of the hash commute, in any mix of additions and subtractions |
| `LTHash.Cancel` | whatsmeow-custom/appstate/lthash/lthash.go:45-58 | an addition and a subtraction of the same element undo each other, in both orders |
| `LTHash.TotalSplit` | whatsmeow-custom/appstate/lthash/lthash.go:27-43 | the from-scratch sum over a map does not depend on the order: any key can be taken out first |
| `LTHash.TotalPut` | whatsmeow-custom/appstate/lthash/lthash.go:27-43 | subtracting the previous value, if any, and adding the new one turns the sum of a map into the sum of the updated map |
| `LTHash.TotalDelete` | whatsmeow-custom/appstate/lthash/lthash.go:27-43 | subtracting the value of a deleted key gives the sum of the smaller map |
| `AppState.BackwardSearchIsLookup` | whatsmeow-custom/appstate/decode.go:323-336 | the backward search through the patch with store fallback finds exactly what a lookup in the map finds after the earlier mutations were applied one by one |
| `AppState.HashFollowsMap` | whatsmeow-custom/appstate/hash.go:39-65 | for any mix of SET and REMOVE on repeated indexes, the incremental hash of a patch is the from-scratch sum over the map after it |
| `AppStateTheorems.OverlayIsFold` | whatsmeow-custom/appstate/decode.go:122-135 | deleting all collected MACs and then putting all collected ones has the effect of the mutations in order |
| `AppStateTheorems.BatchedWriteIsFold` | whatsmeow-custom/appstate/decode.go:229-243 | the stored rows yield the one-by-one map exactly when no stale row of a higher version shadows a put value |
| `AppStateTheorems.InsertFailsExactly` | whatsmeow-custom/store/sqlstore/store.go:518-553 | for every version the row insertion fails exactly when some index is SET twice without a REMOVE after the first, or a SET meets a row of its own version |
| `AppStateTheorems.InsertFailsIffRepeated` | whatsmeow-custom/store/sqlstore/store.go:518-553 | above all stored versions only the repeated SET remains |
| `AppStateTheorems.PatchOutcome` | whatsmeow-custom/appstate/decode.go:381-406 | one patch of any version number: accepted, and the stored hash is the sum over the folded map, which the rows show exactly when no newer row shadows a put value; rejected, and nothing was stored; or torn by a failed insertion, with exactly this content |
| `AppStateTheorems.LowerNumberedPatchIsInvisible` | whatsmeow-custom/appstate/decode.go:381-406 | a patch numbered below an existing row passes every check, its value stays invisible, and the stored hash is wrong unless both values expand to the same element |
| `AppStateTheorems.TornExactly` | whatsmeow-custom/appstate/decode.go:229-243 | a patch of any version number that passes every check fails after its version was written exactly when it repeats a SET or meets a row of its own version; otherwise it succeeds |
| `AppStateTheorems.TornExactlyOnRepeatedSet` | whatsmeow-custom/appstate/decode.go:229-243 | above the stored version exactly when it repeats a SET |
| `AppStateTheorems.RepeatedSetBreaksStore` | whatsmeow-custom/appstate/decode.go:229-243 | for every keyed environment and every decodable SET whose value does not expand to zero: sent twice in one checked patch with valid MACs, it leaves a hash that is not the sum of the stored map |
| `AppStateTheorems.ExactlyTheValidPrefix` | whatsmeow-custom/appstate/decode.go:381-406 | however the patches are numbered and wherever the first bad one lies, version and hash are those of exactly the accepted prefix, in memory and in the store; the map is its fold as long as no newer row shadows a put value |
| `AppStateTheorems.IncreasingPrefix` | whatsmeow-custom/appstate/decode.go:381-406 | numbered upwards from a consistent store, nothing is shadowed and the prefix leaves a consistent store |
| `AppStateTheorems.SnapshotOutcome` | whatsmeow-custom/appstate/decode.go:258-311 | an accepted snapshot had distinct indexes, and leaves a consistent store that holds exactly its records |
| `AppStateTheorems.SnapshotOnto` | whatsmeow-custom/appstate/decode.go:258-311 | an accepted snapshot on any collection, filled or not: its indexes are distinct, and unless a newer row shadows a record the map is the fold of its records, whose total the stored hash is if and only if the values it replaces cancel out |
| `AppStateReport.AcceptedExactly` | whatsmeow-custom/appstate/decode.go:313-356 | a checked patch of any version on a store whose hash is the total of its map is accepted if and only if its snapshot MAC and patch MAC fit the total of the map after its mutations, every mutation can be read and has fitting content and index MACs, no index is SET twice without a REMOVE in between, and no SET meets a row of its version |
| `AppStateReport.RefusedBecause` | whatsmeow-custom/appstate/decode.go:313-356 | which error a refused patch has: unknown key, wrong hash, wrong patch MAC, what is wrong with its first unacceptable mutation, or the violated constraint, in this order |
| `AppStateReport.UncheckedAcceptedExactly` | whatsmeow-custom/appstate/decode.go:313-356 | without checks, if and only if its mutations can be read and the insertion violates no constraint |
| `AppStateReport.PatchIsReported` | whatsmeow-custom/appstate/decode.go:192-227 | an accepted patch of any version hands on each of its mutations, SET or REMOVE, in order, behind the earlier ones: its own operation, key ID, index MAC, value MAC and version, and the index, value and action version inside its ciphertext; a refused one hands on nothing |
| `AppStateReport.SnapshotIsReported` | whatsmeow-custom/appstate/decode.go:258-311 | an accepted snapshot hands on each of its records as a SET of the version of the snapshot |
| `AppStateReport.SnapshotAcceptedExactly` | whatsmeow-custom/appstate/decode.go:258-311 | a checked snapshot on an empty collection is accepted if and only if its MAC fits the total of the map of its records, every record can be read and has fitting MACs, and the indexes are distinct |
| `AppStateReport.SyncTellsEverything` | whatsmeow-custom/appstate.go:42-98 | a successful sync over any pages hands on every snapshot record and every mutation of the pages it goes through, each once and in order, with its own operation and content |
| `AppStateBinding.ContentInputBinds` | whatsmeow-custom/appstate/hash.go:97-101 | operation, key ID and ciphertext can be told from the bytes that the content MAC is taken over |
| `AppStateBinding.PatchMACBinds` | whatsmeow-custom/appstate/hash.go:85-101 | two accepted patches with the same patch MAC are the same patch, in version, operations, indexes, values, number and order of mutations, or two of the inputs that were hashed for them collide |
| `AppStateEncode.EncodedDecodes` | whatsmeow-custom/appstate/decode.go:137-183 | the receiver decodes an encoded mutation to the index, value and version that were encoded, past both MAC checks |
| `AppStateEncode.EncodedPatchAccepted` | whatsmeow-custom/appstate/encode.go:263-337 | a replica in the sender's state accepts the encoded patch, numbered one higher, if and only if its indexes are distinct, and then arrives at the predicted state with the same mutations |
| `AppStateFetch.DecodePageSplits` | whatsmeow-custom/appstate/decode.go:358-407 | a page followed by more patches is one longer page |
| `AppStateFetch.PagingDoesNotMatter` | whatsmeow-custom/appstate.go:69-91 | however the server cuts its patches into pages, store, error, state and mutations are those of one page |
| `AppStateFetch.SyncBegins` | whatsmeow-custom/appstate.go:42-63 | a full sync begins with an emptied collection, a stored version of zero is refused, and a sync that is only wanted for an unsynced collection does nothing for a synced one |
| `AppStateFetch.FirstPage` | whatsmeow-custom/appstate.go:71-91 | which error each page that ends a sync leads to, and what is stored then; otherwise its mutations are put behind the earlier ones and the next page decides, without a snapshot |
| `AppStateFetch.AnyPage` | whatsmeow-custom/appstate/decode.go:358-407 | the same for one page on any store: without an error memory and store agree, and what shows keeps the hash the total of the map |
| `AppStateFetch.SyncStaysConsistent` | whatsmeow-custom/appstate.go:42-98 | a sync over any pages, of any versions, cut off or refused anywhere: a successful one ends with the local state equal to the stored version and hash; unless an insertion failed, the hash stays the total of the visible map as long as what the pages put is not shadowed, and upwards numbering keeps a consistent store consistent |
| `AppStateSend.MergeIsInStep` | whatsmeow-custom/appstate.go:572-580 | applying any answer to a conflict without an error leaves memory and store in agreement, and the hash the total of the map as long as all it puts shows; patches numbered upwards, after a snapshot only on an empty collection, leave a consistent store with the folded map |
| `AppStateSend.RetryIsAccepted` | whatsmeow-custom/appstate.go:565-588 | after a conflict the patch is sent again if and only if the answer was applied without an error, could be handed on and left a readable version, whatever it held; every replica in the merged state then accepts it if and only if its indexes are distinct |
| `AppStateSend.SucceedsExactly` | whatsmeow-custom/appstate.go:513-604 | an upload succeeds if and only if the stored version can be read and the upload is accepted, at once or after one merged conflict, and the sync behind it succeeds |
| `AppStateSend.FirstAnswer` | whatsmeow-custom/appstate.go:536-604 | store and error for each first answer: unchanged and refused, unchanged and disconnected, those of the sync, or those of the merge and the second answer |
| `AppStateSend.LastAnswer` | whatsmeow-custom/appstate.go:536-604 | store and error for each answer that is not followed by another attempt |
| `AppStateSend.NothingToSend` | whatsmeow-custom/appstate.go:517-534 | nothing is sent with an unreadable version, without a key, or with an unknown one |
| `AppStateSend.SendAppState` | whatsmeow-custom/appstate.go:513-604 | the upload with one retry: the store afterwards, the patches sent and the error are those of the specification |
| `AppStateSync.PreviousValue` | whatsmeow-custom/appstate/decode.go:323-336 | the search loop returns the specified previous value |
| `AppStateSync.HashState.UpdateHash` | whatsmeow-custom/appstate/hash.go:39-65 | the loop over the mutations leaves the specified hash |
| `AppStateSync.PatchOutput.RemoveMAC` | whatsmeow-custom/appstate/decode.go:122-128 | in-place filtering removes every pending entry of the index and records the removal |
| `AppStateSync.PatchOutput.AddMAC` | whatsmeow-custom/appstate/decode.go:130-135 | refines the step of the collected output; the decoded mutations stay |
| `AppStateSync.Store.PutAppStateMutationMACs` | whatsmeow-custom/store/sqlstore/store.go:540-553 | one transaction: all rows are inserted, or a violated constraint leaves the table as it was, with the exact condition |
| `AppStateSync.Store.GetAppStateMutationMAC` | whatsmeow-custom/store/sqlstore/store.go:575-580 | the lookup returns the value of the row with the highest version |
| `AppStateSync.Processor.DecodeAll` | whatsmeow-custom/appstate/decode.go:192-227 | the decoding loop stops at the first error, or collects the specified output and mutations, which `AppStateReport.PatchIsReported` ties to the patch |
| `AppStateSync.Processor.DecodeSnapshot` | whatsmeow-custom/appstate/decode.go:258-311 | snapshot decoding leaves the specified store, state, mutations and error, which `AppStateReport.SnapshotIsReported` ties to the records |
| `AppStateSync.Processor.DecodePatches` | whatsmeow-custom/appstate/decode.go:358-407 | the patch loop leaves the specified store, state, mutations and error, including early returns; `AppStateReport.SyncTellsEverything` and `AppStateReport.RefusedBecause` say which these are |
| `AppStateSync.Processor.EncodePatch` | whatsmeow-custom/appstate/encode.go:263-337 | the encoding loop builds the specified patch without changing the store |
| `AppStateSync.Processor.FetchAppState` | whatsmeow-custom/appstate.go:42-98 | the paging loop leaves the specified store, state, mutations and error |
| `BinaryRoundTrip.PackRoundTrip` | whatsmeow-custom/binary/encoder.go:223-254 | packed nibbles or hex digits unpack to the text and its padding |
| `BinaryRoundTrip.ReadPackedBack` | whatsmeow-custom/binary/decoder.go:83-153 | a packed string is read back, odd length included, leaving the bytes behind it |
| `BinaryRoundTrip.ReadStringBack` | whatsmeow-custom/binary/encoder.go:135-159 | every string comes back, whether written as a token, a double-byte token, packed or raw |
| `BinaryRoundTrip.ReadJIDBack` | whatsmeow-custom/binary/encoder.go:161-188 | each of the four JID forms comes back as the normalised JID, leaving the bytes behind it |
| `BinaryRoundTrip.ValueBack` | whatsmeow-custom/binary/encoder.go:101-133 | any attribute or content value comes back normalised, or is refused exactly when a nested tag is unusable; `BinaryText.SentNodeArrives` says what the normal form is |
| `BinaryRoundTrip.AttrsBack` | whatsmeow-custom/binary/encoder.go:190-209 | the counted attributes come back as the normalised map; empty ones are dropped and not counted |
| `BinaryRoundTrip.NodeBack` | whatsmeow-custom/binary/decoder.go:352-384 | a node in front of any bytes is read back in normal form and leaves exactly those bytes; it fails exactly when a written tag is empty or "0" |
| `BinaryRoundTrip.RoundTrip` | whatsmeow-custom/binary/node.go:123-139 | unmarshalling a marshalled node gives its normal form, if and only if all its tags are usable |
| `BinaryLocality.ReadLocal` | whatsmeow-custom/binary/decoder.go:168-223 | what a value decodes to, and how many bytes it takes, does not depend on the bytes behind it; the index only grows |
| `BinaryLocality.NodeLocal` | whatsmeow-custom/binary/decoder.go:306-384 | the same for whole nodes, over all byte strings |
| `BinaryOrder.NormSameNode` | whatsmeow-custom/binary/encoder.go:190-199 | two visits of one node, each listing every attribute map at every depth in an order of its own, have the same normal form |
| `BinaryOrder.FitsSameNode` | whatsmeow-custom/binary/encoder.go:190-209 | whether a node can be encoded within the format's sizes does not depend on the order either |
| `BinaryOrder.OrderDoesNotMatter` | whatsmeow-custom/binary/encoder.go:190-199 | any two such visits are decoded to the same node |
| `BinaryText.ItoaDecimal` | whatsmeow-custom/binary/encoder.go:109-120 | numbers are written as digits that a decimal evaluator reads back, without a leading zero and with a minus sign if negative |
| `BinaryText.DecimalOnce` | whatsmeow-custom/binary/encoder.go:109-120 | there is just one such notation of a number |
| `BinaryText.SentNodeArrives` | whatsmeow-custom/binary/node.go:123-139 | whoever unmarshals a marshalled node gets its tag, every attribute that is not empty and no other, and its content, at every depth: the text, the decimal notation of a number, the word true or false, the address, or the bytes that were sent |
| `BinaryText.TextOnTheWire` | whatsmeow-custom/binary/encoder.go:135-149 | the bytes of a text: a token of one byte, of two bytes behind 236 to 239, packed behind 255 or 251 with its length, or raw, whichever comes first |
| `BinaryText.NeverLonger` | whatsmeow-custom/binary/encoder.go:135-149 | no other form that the text could be written in is shorter |
| `BinaryText.LastPlace` | whatsmeow-custom/binary/token/token.go:30-44 | of equal tokens the last one is used |
| `BinaryText.LastDictionary` | whatsmeow-custom/binary/token/token.go:30-44 | of equal double-byte tokens the last one in the last dictionary |
| `BinaryText.SourceTables` | whatsmeow-custom/binary/token/token.go:30-44 | the theorems admit tables of the sizes of the source |
| `BinaryText.RawOnTheWire` | whatsmeow-custom/binary/encoder.go:64-76 | raw bytes stand behind 252, 253 or 254 and their length in one, three or four bytes |
| `BinaryText.AddressOnTheWire` | whatsmeow-custom/binary/encoder.go:161-188 | the bytes of an address for each server |
| `BinaryText.ListOnTheWire` | whatsmeow-custom/binary/encoder.go:211-221 | a list begins with 0, with 248 and one byte, or with 249 and two bytes |
| `BinaryText.NodeOnTheWire` | whatsmeow-custom/binary/encoder.go:81-99 | a node is a list of its tag, its attributes that are not empty, and its content; one tagged "0" is 248 and 0 |
| `BinaryGrammar.ReadsExactly` | whatsmeow-custom/binary/decoder.go:168-304 | the decoder reads a value from a byte string if and only if a form of the grammar that means this value, canonical or not, stands at its beginning; what is left is what is behind it |
| `BinaryGrammar.DecodesExactly` | whatsmeow-custom/binary/decoder.go:306-384 | unmarshalling gives a node if and only if the bytes are a form that means it, with none left over |
| `BinaryGrammar.RefusedValues` | whatsmeow-custom/binary/decoder.go:168-223 | the errors for the end of the data, an unknown token and an unknown double-byte token |
| `BinaryGrammar.RefusedPacking` | whatsmeow-custom/binary/decoder.go:83-153 | the errors for packed bytes that are no characters, and the panic on an odd text without any |
| `BinaryGrammar.RefusedNodes` | whatsmeow-custom/binary/decoder.go:352-384 | the errors for a node without a list size, without a tag, or with a key that is no text |
| `BinaryGrammar.RefusedAddresses` | whatsmeow-custom/binary/decoder.go:225-304 | the error for an address with the wrong server |
| `BinaryCodec.BinaryEncoder.WritePackedBytes` | whatsmeow-custom/binary/encoder.go:223-250 | the loop appends exactly the packed form |
| `BinaryCodec.BinaryEncoder.WriteString` | whatsmeow-custom/binary/encoder.go:135-149 | the buffer grows by the specified string form |
| `BinaryCodec.BinaryEncoder.WriteJID` | whatsmeow-custom/binary/encoder.go:161-188 | the buffer grows by the specified JID form |
| `BinaryCodec.BinaryEncoder.WriteNode` | whatsmeow-custom/binary/encoder.go:81-99 | the buffer grows by exactly the encoding of the node |
| `BinaryCodec.Marshal` | whatsmeow-custom/binary/node.go:123-128 | the whole output, leading flag byte included |
| `BinaryCodec.BinaryDecoder.ReadPacked8` | whatsmeow-custom/binary/decoder.go:83-116 | the loop over the packed bytes agrees with the specification, errors included, and the index never passes the end |
| `BinaryCodec.BinaryDecoder.ReadValue` | whatsmeow-custom/binary/decoder.go:168-223 | the tag switch agrees with the specification on every byte string |
| `BinaryCodec.BinaryDecoder.ReadOneNode` | whatsmeow-custom/binary/decoder.go:352-384 | the node reader terminates and agrees with the specification on every byte string |
| `BinaryCodec.Unmarshal` | whatsmeow-custom/binary/node.go:130-139 | the decoded node, refusing input with bytes left over |
| `ReportingTheorems.PutBack` | whatsmeow-custom/reportingtoken.go:160-168 | a re-encoded length is read back as the same number |
| `ReportingTheorems.PutShortest` | whatsmeow-custom/reportingtoken.go:160-168 | a re-encoded length is never longer than the one that was read, and fits in 64 bits |
| `ReportingTheorems.ScanPrint` | whatsmeow-custom/reportingtoken.go:94-136 | printed fields are scanned back as those fields if and only if none but the last is a bare tag |
| `ReportingWire.UvarintReads` | whatsmeow-custom/reportingtoken.go:103-107 | a varint is the number whose groups of seven bits its bytes hold, up to the first byte below 128, with at most ten bytes and 64 bits; when it is cut off, and when it overflows |
| `ReportingWire.WrittenIsRead` | whatsmeow-custom/reportingtoken.go:101-167 | a field written in any of the four wire types is read with its number, bytes and content, whatever follows |
| `ReportingWire.MessageIsRead` | whatsmeow-custom/reportingtoken.go:101-167 | a message of such fields is read as these fields |
| `ReportingWire.UnknownWireTypeEmpties` | whatsmeow-custom/reportingtoken.go:123-126 | a tag with another wire type behind them makes the output empty, whatever is configured |
| `ReportingWire.UnreadableTagIsIgnored` | whatsmeow-custom/reportingtoken.go:103-106 | bytes behind them that cannot be read as a tag change nothing |
| `ReportingTheorems.OutputWellFormed` | whatsmeow-custom/reportingtoken.go:94-176 | on every input the output is never longer than the input and holds only configured fields; it is scanned back as exactly the sorted kept fields if and only if no field is sorted behind one whose varint was cut off; if that is so at every level, no level of the output goes out of bounds |
| `ReportingTheorems.Idempotent` | whatsmeow-custom/reportingtoken.go:138-176 | extracting again changes nothing when the sort is settled on the input and no field is sorted behind one that was cut off |
| `ReportingTheorems.CutOffFieldSpoilsOutput` | whatsmeow-custom/reportingtoken.go:130-134 | a whole field 2 followed by the tag of a field 1 whose varint is missing gives an output that a second extraction changes |
| `ReportingFilter.OutputIsSound` | whatsmeow-custom/reportingtoken.go:94-176 | at every level every field of the output is configured and stems from a field of the input with its tag: it is that field, or, if it is length-delimited and its entry has the flag or subfields, a non-empty message of which the same is true for those subfields |
| `ReportingFilter.OutputIsComplete` | whatsmeow-custom/reportingtoken.go:94-176 | at every level every configured field of the input is in the output, as often as in the input if it is not selected from and otherwise with what is kept of it, unless nothing is; there is one field for each, ordered by number |
| `ReportingFilter.NothingIsKept` | whatsmeow-custom/reportingtoken.go:94-176 | the output is empty if and only if the message has an unknown wire type or none of its fields is configured but messages of which nothing is kept |
| `ReportingFilter.UncutIsBareLast` | whatsmeow-custom/reportingtoken.go:94-176 | both hold for every message in which no configured field is cut off |
| `ReportingTheorems.DistinctSettled` | whatsmeow-custom/reportingtoken.go:170-172 | distinct field numbers at every level settle the order for every sorting algorithm |
| `ReportingTheorems.StableSettled` | whatsmeow-custom/reportingtoken.go:170-172 | a sorting algorithm that leaves sorted input alone is settled on every input |
| `ReportingTheorems.SortingDoesNotMatter` | whatsmeow-custom/reportingtoken.go:170-172 | with distinct numbers any two sorting algorithms, stable or not, give the same bytes |
| `ReportingToken.ExtractReportingTokenContent` | whatsmeow-custom/reportingtoken.go:94-176 | the byte-scanning loop computes parse, filter recursively, sort and print on every message without overlong varints whose payloads stay inside the data, unless the field is not configured and its end fits an index; varints that are cut off are included |
| `ReportingWalk.TerminatesExactly` | whatsmeow-custom/reportingtoken.go:101-169 | on every input and configuration the loop goes on forever if and only if it comes back to an index and on the way there is a field that turns it back: one with an overlong varint, or with a length that is negative as a 64-bit index and reaches to the field or before it; a loop that ends has ended after as many turns as there are bytes |
| `ReportingWalk.LandsBack` | whatsmeow-custom/reportingtoken.go:101-169 | whatever is configured, when the loop goes on after a field, the index stays or goes back if and only if the bytes of that field turn it back |
| `ReportingWalk.HarmlessTerminates` | whatsmeow-custom/reportingtoken.go:101-169 | if no field that is visited turns the index back, the loop ends, with configured overruns and unreadable tags as well |
| `ReportingWalk.BackToAPassedIndexLoops` | whatsmeow-custom/reportingtoken.go:101-169 | a field that leads the index to where it has been before, or leaves it there, makes the loop go on forever |
| `ReportingWalk.WellEndingIsHarmless` | whatsmeow-custom/reportingtoken.go:101-169 | no field that is visited in the messages for which `ReportingToken.ExtractReportingTokenContent` is proved turns the index back, so that its loop ends on them |
| `ReportingWalk.OverlongVarintLoops` | whatsmeow-custom/reportingtoken.go:112-126 | for every number below 16 that is not configured: five short fields of that number and a sixth with an overlong varint make it go on forever |
| `ReportingWalk.TenByteTagLoops` | whatsmeow-custom/reportingtoken.go:101-169 | a tag of ten bytes before a varint that overflows in its tenth byte keeps the loop where it is, whether or not the field is configured |
| `ReportingWalk.ConfiguredEndsBackwards` | whatsmeow-custom/reportingtoken.go:131-134 | a configured varint field ends the loop by a panic if and only if it would end before its tag |
| `ReportingWalk.ConfiguredLengthEnds` | whatsmeow-custom/reportingtoken.go:138-160 | where a configured length-delimited field leads the index, with 64-bit wrap-around, and when slicing it panics: if its end is negative or before the payload when its subfields are selected, before the tag otherwise |
| `ReportingWalk.FixedMovesOn` | whatsmeow-custom/reportingtoken.go:108-127 | fields of fixed size move the index behind them, and unknown wire types end the loop |
| `FramingTheorems.SplitPrinted` | whatsmeow-custom/socket/framesocket.go:125-155 | splitting a printed stream gives the printed frames |
| `FramingTheorems.FrameOnTheWire` | whatsmeow-custom/socket/framesocket.go:125-155 | a frame is the length of its body in three bytes, most significant first, and the body |
| `FramingTheorems.ProcessSplits` | whatsmeow-custom/socket/framesocket.go:166-205 | counting body bytes only, one chunk delivers exactly the frames it completes and keeps exactly the bytes left over |
| `FramingTheorems.Reassembly` | whatsmeow-custom/socket/framesocket.go:166-205 | counting body bytes only, printed frames cut into any chunks come back as those frames |
| `FramingTheorems.ReassemblyAsWritten` | whatsmeow-custom/socket/framesocket.go:177-178 | as written, a printed stream is reassembled if and only if no chunk ends inside a body |
| `FramingTheorems.MiscountNeverRecovers` | whatsmeow-custom/socket/framesocket.go:177-203 | after a cut inside a body the code as written never delivers the right frames, whatever follows |
| `FramingTheorems.CutBodyPanics` | whatsmeow-custom/socket/framesocket.go:177-203 | a two-byte body cut in the middle makes the code as written panic |
| `FrameSocketModel.FrameSocket.SendFrame` | whatsmeow-custom/socket/framesocket.go:125-155 | the bytes written are the header, if any, and the printed frame; a frame of 2^24 bytes or more is refused |
| `FrameSocketModel.FrameSocket.ProcessData` | whatsmeow-custom/socket/framesocket.go:166-205 | the loop over the fields, with either way of counting, does what the specification does |
| `EventBuffer.PadBack` | whatsmeow-custom/message.go:657-677 | unpadding undoes padding for every random byte |
| `EventBufferProgress.UnpadExactly` | whatsmeow-custom/message.go:651-667 | what unpadding gives for every byte string, and when it is refused |
| `EventBufferProgress.PadAdds` | whatsmeow-custom/message.go:669-677 | padding adds one to fifteen bytes, each of which is their number |
| `EventBufferProgress.FirstDelivery` | whatsmeow-custom/message.go:353-571 | the whole outcome of the first delivery of a message, however it is disturbed: nothing used up without a transaction, otherwise the plaintext buffered before the handler is called with the payload, kept if it fails or the process dies, cleared with a receipt otherwise |
| `EventBufferProgress.FirstDeliveryWithoutBuffer` | whatsmeow-custom/message.go:520-523 | the same with the buffer switched off |
| `EventBufferProgress.BadPaddingIsReported` | whatsmeow-custom/message.go:616-620 | a plaintext with wrong padding is reported as undecryptable and stays buffered |
| `EventBufferProgress.ProcessedIsAcknowledged` | whatsmeow-custom/message.go:403-408 | a message that was cleared, or whose step is used up and that is not buffered, is acknowledged without a call |
| `EventBufferProgress.NextDeliveryRecovers` | whatsmeow-custom/message.go:353-571 | a message whose first delivery failed, or died before its handler, is handed over, cleared and acknowledged by the next one that is not disturbed |
| `EventBufferProgress.UndisturbedDelivery` | whatsmeow-custom/message.go:353-493 | a delivery of any number of new messages in which nothing goes wrong decrypts and hands over each once and in order, clears them all, and ends with one receipt |
| `EventBufferProgress.AnsweredExactly` | whatsmeow-custom/message.go:484-492 | the server is answered exactly when the loop completes: that nothing was recognised if and only if no child is encrypted, that a payload was bad if and only if the last one of version 2 or 3 that was looked at could not be read, and with a receipt otherwise |
| `EventBufferProgress.PlainChildren` | whatsmeow-custom/message.go:354-440 | what each kind of child that is no Signal message does to the world and the loop |
| `EventBufferProgress.PruningForgets` | whatsmeow-custom/store/sqlstore/store.go:1075-1080 | pruning removes the entries from the buffer, cleared or not, and forgets no ratchet step |
| `EventBufferTheorems.BufferedMeansConsumedOnce` | whatsmeow-custom/message.go:551-563 | in every run each ratchet step is used at most once, only used ones are in the buffer, and a buffered plaintext is what its decryption gave |
| `EventBufferTheorems.ConsumedIffBuffered` | whatsmeow-custom/message.go:551-563 | without pruning a ratchet step is used if and only if its ciphertext is in the buffer |
| `EventBufferTheorems.PlaintextStays` | whatsmeow-custom/message.go:530-549 | whatever crashes, failures and redeliveries follow, a plaintext stays retrievable until its handler has not failed, its payload turned out unreadable and not of version 2, or it was pruned |
| `EventBufferTheorems.ClearedExactly` | whatsmeow-custom/message.go:436-463 | when processing a child with a buffered plaintext is not disturbed, whatever was processed before it, the plaintext is cleared if and only if the handler was called and did not answer that it failed, or the payload cannot be read and is not of version 2 |
| `EventBufferTheorems.ClearedExactlyInDelivery` | whatsmeow-custom/message.go:353-463 | the same for the child at any position that the loop reaches in a delivery |
| `EventBufferTheorems.PanickingHandlerLosesMessage` | whatsmeow-custom/message.go:448-463 | a handler that panics lets the plaintext be cleared and the message be acknowledged |
| `EventBufferTheorems.UnreadablePayload` | whatsmeow-custom/message.go:439-452 | an unreadable version 3 payload is cleared without a call, an unreadable version 2 payload is kept |
| `EventBufferTheorems.NeverCalledAgain` | whatsmeow-custom/message.go:454-463 | once cleared or pruned, no later delivery calls the handler for the message |
| `EventBufferTheorems.FinishedAtMostOncePerInterruption` | whatsmeow-custom/message.go:454-463 | the handler finishes a message at most once more often than something interferes between handler and clearing |
| `EventBufferTheorems.ReceiptMeansSettled` | whatsmeow-custom/message.go:353-483 | the loop completes, so that the server is answered, only when every Signal child is handled, unreadable or was pruned |
| `EventBufferTheorems.RedeliveryRecovers` | whatsmeow-custom/message.go:354-483 | an undisturbed redelivery hands over the buffered plaintext, clears it and sends the receipt |
| `EventBufferTheorems.WithoutBufferMessagesAreLost` | whatsmeow-custom/message.go:520-523 | with the buffer switched off, a failed handler call is followed by a receipt for a message that was never handled |
| `EventBufferClient.Client.BufferedDecrypt` | whatsmeow-custom/message.go:513-571 | the lookup and the transaction with its rollback leave the specified state and result, which `EventBufferProgress.FirstDelivery` and `EventBufferProgress.FirstDeliveryWithoutBuffer` spell out |
| `EventBufferClient.Client.DecryptMessages` | whatsmeow-custom/message.go:353-483 | the child loop with its flags, early returns and final answer leaves the specified state; `EventBufferProgress.AnsweredExactly` says which answer that is |
| `SessionCache.LoadAgrees` | whatsmeow-custom/store/signal.go:85-103 | a load through the cache returns what the table it stands for would return |
| `SessionCache.LoadedIs` | whatsmeow-custom/store/signal.go:85-103 | a load gives the cached record, a blank one without a session, what the bytes of the session say, or an error |
| `SessionCache.PrefetchHolds` | whatsmeow-custom/store/sessioncache.go:72-104 | the prefetch holds, clean, exactly the addresses asked for whose session is missing or can be decoded |
| `SessionCache.WriteBackWrites` | whatsmeow-custom/store/sessioncache.go:106-125 | a write-back puts exactly the dirty records into the table and empties the cache, unless there is something to write and it fails |
| `SessionCache.VisitAgrees` | whatsmeow-custom/store/sessioncache.go:47-70 | a visit through the cache does what it does on the table if and only if it stores what it changed in a shared record |
| `SessionCache.CacheIsTransparent` | whatsmeow-custom/store/sessioncache.go:72-125 | any interleaving of careful visits and write-backs reads the same records as direct access, and the final write-back leaves the same table |
| `SessionCache.AbandonedRunLeavesNoTrace` | whatsmeow-custom/store/sessioncache.go:106-125 | a run without a successful write-back leaves the table unchanged |
| `SessionCache.DeletionBypassesCache` | whatsmeow-custom/store/sessioncache.go:47-57 | a deletion in the table is seen by loads if and only if the address is not cached |
| `SessionSharing.SharingIsInvisible` | whatsmeow-custom/store/sessioncache.go:47-125 | with records as shared objects on a heap: any interleaving of loads, changes, stores and write-backs in which no reference is used after another one changed its record, no record is kept under two addresses, and changes are stored before the next load or write-back, reads the same as with copies, and the write-back leaves the same table |
| `SessionSharing.LaterChangeIsWritten` | whatsmeow-custom/store/sessioncache.go:106-125 | a record that is changed after it was stored is written back as changed, which differs from what was stored if and only if the change changes the record |
| `SessionCache.Store.LoadSession` | whatsmeow-custom/store/signal.go:85-103 | cached record, fresh record, stored record or the error of the query or the record, as specified |
| `SessionCache.Store.StoreSession` | whatsmeow-custom/store/signal.go:109-120 | into the cache as a dirty entry, or into the table, unless the write fails |
| `SessionCache.Store.WithCachedSessions` | whatsmeow-custom/store/sessioncache.go:72-104 | the prefetch loop builds the specified cache, skips undecodable sessions, and reports exactly which addresses have a session; a failing query leaves the context without a new cache |
| `SessionCache.Store.PutCachedSessions` | whatsmeow-custom/store/sessioncache.go:106-125 | the loop collects exactly the dirty records; they are written together and the cache is emptied, or nothing changes |
| `RecentMessages.FoundExactly` | whatsmeow-custom/retry.go:80-98 | a message is found if and only if its key was added and, since its latest add, no slot that held the key was overwritten; it is the latest one |
| `RecentMessages.FoundIsInRing` | whatsmeow-custom/retry.go:80-98 | every found key with an ID is in the ring, from one of the last 256 adds |
| `RecentMessages.DistinctKeepsLast` | whatsmeow-custom/retry.go:80-98 | for distinct keys with IDs the map is precisely the last 256 adds |
| `RecentMessages.ReaddedIsForgotten` | whatsmeow-custom/retry.go:80-83 | a key added twice in a row is forgotten although it is among the last 256 adds |
| `RecentMessages.RecentCache.AddRecentMessage` | whatsmeow-custom/retry.go:79-91 | map, ring and pointer after one add |
| `SendLimiter.SlidingBounds` | message_safety.go:30-52 | in every run recorded sends keep the cooldown, and every half-open hour or day contains fewer than twice the limit |
| `SendLimiter.WindowCountsExactly` | message_safety.go:30-52 | each stored window counts exactly the sends since it began, at most the limit |
| `SendLimiter.EveryVerdict` | message_safety.go:30-38 | the verdict for every row and time: the rest of the cooldown, then the limit of the hour, then that of the day |
| `SendLimiter.EveryRecord` | message_safety.go:40-52 | the row after every recording |
| `SendLimiter.OffMeansUnlimited` | message_safety.go:31-41 | with the limiter off every send goes through and no row is written |
| `SendLimiterExact.HourlyLimitExactly` | message_safety.go:30-52 | the hourly limit bounds every half-open hour of every run if and only if it is one, the cooldown alone enforces it, or the daily limit is at most half of it plus one |
| `SendLimiterExact.DailyLimitExactly` | message_safety.go:30-52 | the daily limit bounds every half-open day of every run if and only if it is one, or the cooldown and the hourly windows let no more through in a day anyway |
| `SendLimiterExact.DefaultsDoNotHold` | message_safety.go:32 | with the default settings neither limit holds |
| `SendLimiterConcurrent.CooldownOverKSends` | message_safety.go:28-52 | with at most k calls of an account under way at a time, their checks and records interleaved in any order, every send comes a cooldown after the one k places before it |
| `SendLimiterConcurrent.KSendsAtOnce` | message_safety.go:28-52 | and no sooner: k calls under way can record k sends at one moment, whatever the cooldown |
| `SendLimiter.Limiter.CheckMessageSafety` | message_safety.go:30-38 | refines the check that the runs are made of: the verdict follows from the row and the clock alone, and the row stays as it is |
| `SendLimiter.Limiter.RecordMessageSafety` | message_safety.go:40-52 | refines the recording that the runs are made of |
| `ReferralLedger.OpenKeeps` | user_features.go:17 | opening a claim keeps all books balanced, every reward single and the referral order |
| `ReferralLedger.SendFailedKeeps` | user_features.go:17 | so does a failed send |
| `ReferralLedger.CreditKeeps` | user_features.go:17-18 | and so does the crediting transaction, committed or rolled back, with other steps before it |
| `ReferralLedger.RegisterKeeps` | user_portal.go:22 | registration keeps the same invariant |
| `ReferralLedger.Run` | user_features.go:17-18 | in every run of interleaved claims each account shows exactly the sum of its ledger rows, a claim is rewarded once exactly when it is marked sent, and referrers registered earlier |
| `ReferralTheorems.AncestorsAreEarlier` | user_portal.go:22 | every referrer up the chain registered before: there are no cycles |
| `ReferralTheorems.ClaimerEarnsTheReward` | user_features.go:17-18 | a committed claim gives the claimer the reward and no commission |
| `ReferralTheorems.ReferrerEarnsTheLevel` | user_features.go:18 | the referrer n levels up earns the percentage of level n of the reward if that level is active, and nothing otherwise, even when lower levels are switched off |
| `ReferralTheorems.StrangersEarnNothing` | user_features.go:18 | everybody who is not among the ten referrers keeps their balance |
| `ReferralTheorems.OneCommissionEach` | user_features.go:18 | one claim writes at most ten commission rows, at most one for any user and none for the claimer |
| `ReferralTheorems.CommissionsAreBounded` | user_features.go:18 | all commissions of a claim together are at most the reward times the active percentages, with equality for full chains |
| `ReferralPayout.RegistrationInserts` | user_portal.go:22 | a valid referral code, or none, opens one active account with its own code, no money, and an active owner of the code as its referrer; an invalid code changes nothing |
| `ReferralPayout.RowsAreDue` | user_features.go:18 | the commission rows of a claim are exactly those due: for each active level n with a positive percentage, from the n-th referrer, for the one below, with that share of the reward, in the order of the levels |
| `ReferralPayout.CommittedClaimWrites` | user_features.go:17-18 | everything that a committed claim writes: those rows, a ledger row for the reward and for each of them, the status, and nothing but money in the accounts |
| `ReferralPayout.ReferredUserPaysOwner` | user_features.go:17-18 | who registered with the code of an active user pays an owner of that code the commission of level 1 with every committed claim, whatever steps lie in between |
| `ReferralPayout.OtherStepsWrite` | user_features.go:17 | what opening a claim, a failed send and an activation write |
| `ReferralPayout.NotPaidAgain` | user_features.go:17 | crediting a claim again, after a failed send or without a commit changes nothing |
| `ReferralClaims.Database.Register` | user_portal.go:22 | refused, with nothing changed, exactly when a code is given that no active user has; otherwise one account is appended, active, with the new code, no money, and an earlier active user with the given code as its referrer, if one was given |
| `ReferralClaims.Database.OpenClaim` | user_features.go:17 | the first transaction appends the claim, marked as being sent, or refuses it |
| `ReferralClaims.Database.CreditClaim` | user_features.go:17-18 | the second transaction: any failing statement rolls it back, and without failures it commits |
| `ReferralClaims.Database.PayReferrers` | user_features.go:18 | the level loop pays exactly the specified rows |
| `ResponseWaiters.StepKeeps` | whatsmeow-custom/request.go:37-89 | from what callers do according to their own history: every waiter's channel stays open, empty and unused, a channel is closed exactly when its owner cancelled it, and only a send to a cancelled channel panics |
| `ResponseWaiters.ClearDelivers` | whatsmeow-custom/request.go:37-48 | clearing hands the node to every waiter and closes no channel |
| `ResponseWaiters.EveryRunIsValid` | whatsmeow-custom/request.go:37-89 | so it is after every proper run; each channel gets at most one node |
| `ResponseWaiters.PanicsExactly` | whatsmeow-custom/request.go:37-89 | a proper run never closes a channel twice nor sends to a closed one if and only if no channel is cancelled between being taken and being sent to |
| `ResponseWaiters.ReceivingAtOnceNeverPanics` | whatsmeow-custom/request.go:65-89 | if every take is followed by its send at once, no proper run panics |
| `ResponseWaiters.CancelledWhileReceivingPanics` | whatsmeow-custom/request.go:58-89 | as written, a cancellation between taking and sending makes the receiver panic |
| `ResponseAnswers.AnswerIsItsOwn` | whatsmeow-custom/request.go:37-89 | what a waiter finds in its channel was put there by clearing the table, or was taken for its own request ID and then sent |
| `ResponseAnswers.TakenNodeArrives` | whatsmeow-custom/request.go:65-89 | a node that comes for an ID somebody waits for reaches that waiter, whatever happens in between, unless it is cancelled |
| `ResponseAnswers.ReceivedOnce` | whatsmeow-custom/request.go:37-89 | no channel is received from twice |
| `ResponseWaiters.Client.WaitResponse` | whatsmeow-custom/request.go:50-56 | a new channel, open and empty, is entered for the ID |
| `ResponseWaiters.Client.CancelResponse` | whatsmeow-custom/request.go:58-63 | the channel that is closed was open |
| `ResponseWaiters.Client.TakeWaiter` | whatsmeow-custom/request.go:65-80 | the locked half of receiving: which waiter is taken, if any; its channel is open |
| `ResponseWaiters.Client.SendResponse` | whatsmeow-custom/request.go:81-85 | the unlocked half: it panics if and only if the channel was cancelled and the context has not ended first; otherwise the node is delivered, unless the context ended |
| `ResponseWaiters.Client.ClearResponseWaiters` | whatsmeow-custom/request.go:37-48 | the loop over the table gives every waiter the node and empties the table |
| `GroupCache.Cache.UpdateGroupParticipantCache` | whatsmeow-custom/group.go:1007-1036 | the members become exactly (old and joined) without those who left, still without repetitions; nothing else changes |
| `GroupCache.SwapRemoved` | whatsmeow-custom/group.go:1026-1035 | the swap with the last member removes just the one member from a list without repetitions |
| `GroupCache.SwapRemovesOneOccurrence` | whatsmeow-custom/group.go:1026-1035 | in general it removes one occurrence, and the member stays if and only if it was held twice |

## Left out

Contracts that say less than the source does:

- AppStateEncode.EncodedPatchAccepted: assumes that decryption undoes encryption and that the parsers undo their printers; it says nothing about forged patches.
- AppStateBinding.PatchMACBinds: it names the inputs that would have to collide; that nobody can find such inputs is not part of this model.
- AppStateFetch.SyncStaysConsistent: that what the pages put shows is a condition on the stored rows; upwards numbering is the condition on the pages alone that implies it.
- AppStateSend.RetryIsAccepted: for replicas without rows newer than their version.
- BinaryText.SentNodeArrives: for nodes that fit the format and whose tags are usable, as in `BinaryRoundTrip.RoundTrip`, with attribute maps that hold each key once.
- BinaryRoundTrip.RoundTrip: for texts below 2^31 bytes and lists below 65536 elements; the source writes a longer list with its length cut to 16 bits. The normal form says what else changes: a string as content comes back as bytes, an AD device modulo 256.
- ReportingToken.ExtractReportingTokenContent: not for messages in which a configured field is sliced past the end of the data, which panics or, in a submessage, reads on into the bytes behind it, nor for those with an overlong varint or a length that does not fit an index, whose fields turn the index back.
- ReportingFilter.OutputIsSound: for messages in which no field is sorted behind one that was cut off; so is ReportingFilter.OutputIsComplete, for those of which something is kept.
- ReportingTheorems.Idempotent: a condition under which extracting again changes nothing; with a cut-off field in front of others it may still happen to change nothing.
- ReportingWalk.TerminatesExactly: for one level, and data of at most 2^63 - 1 bytes; the loops of submessages are taken to end, and a slice past the length of the data, which Go allows up to its capacity, ends the loop here as it does there.
- SessionCache.CacheIsTransparent: records are values there, shared with the caller for the duration of one visit; `SessionSharing.SharingIsInvisible` has them as objects that stay shared.
- SessionSharing.SharingIsInvisible: without the failing query of the prefetch, and for the codec of a record that undoes its own printing.
- EventBufferTheorems.ReceiptMeansSettled: a handler that panics counts as finished, as in the source.
- EventBufferClient.Client.DecryptMessages: without the flag that marks a missing sender key as unavailable in the report of an undecryptable message.
- SendLimiter.SlidingBounds: for constant settings, a clock that does not go back and serialised sends.
- SendLimiterExact.HourlyLimitExactly: under the same assumptions, with limits of at least one, which the settings enforce.
- ReferralTheorems.CommissionsAreBounded: amounts are real numbers, without floating-point rounding, and rewards are not negative.
- ReferralPayout.ReferredUserPaysOwner: several users may have one code here, and the first active one is paid; the source generates codes that nobody has yet.
- ReferralLedger.Run: a handler takes one of the two steps after opening its claim; a claim whose crediting was rolled back may be credited later here, which the source never tries.
- ResponseWaiters.PanicsExactly: for callers that cancel a channel once and under its own ID, and wait for an ID again only when the earlier wait was answered or cancelled.

Not modelled:

- Application state: the key cache, log warnings, `fakeIndexesToRemove` (always empty), external blobs, collection of events, errors of the store other than a violated constraint, chunks of 400 rows inside one transaction, wrap-around of the 64-bit version, and recovery snapshots, which store a received hash unchecked (`whatsmeow-custom/appstate/recovery.go`).
- Mutation blobs shorter than 48 bytes: the source panics on them.
- Codec: decompression, JSON and XML forms of nodes, the unused little-endian readers, and the contents of the token tables beyond their sizes.
- Reporting tokens: the HMAC over the extracted content.
- Framing: the websocket, and the connection header on the receiving side.
- Event buffer: concurrent deliveries, retry receipts and their contents, the "unavailable" branch, panics outside a handler, and the age limit of pruning, which removes an arbitrary set instead.
- Signal cryptography: a ratchet step is identified with the hash of its ciphertext.
- Request waiters: time-outs, which leave a waiter in the table, and the frames themselves.
- Send limiter and ledger: SQL, sessions, HTTP, validation of names and passwords, a registration refused by the database, counters of the WhatsApp account, and settings that change during a run.
- Group cache: a group that changes its addressing mode.
- HTTP handlers, pages, telemetry, pairing, media, Noise handshake, newsletters and notification parsing.

