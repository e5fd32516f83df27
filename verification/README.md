# A verified model of the transparency log

The log sequences salted commitments, answers each with a signed inclusion receipt, and lets anyone check
that its signed tree heads only ever extend each other. This project models the log's Merkle tree, its
journal and restart, its receipts and heads, the interleaving of its request handlers with the external
time-stamping authority, and its byte codecs, and proves what the service relies on.

| file | models |
|---|---|
| `Bits.dfy`, `Digests.dfy`, `Text.dfy`, `Utf8.dfy` | shifts, split points and bit counts; hashes and collisions; trimming and numbers as text; UTF-8 (RFC 3629) and what becomes of text that is cut |
| `MerkleSpec.dfy` | the Merkle Tree Hash, audit paths and consistency proofs of RFC 6962 (sections 2.1, 2.1.1, 2.1.2), their verifiers, completeness and soundness |
| `RfcExample.dfy` | the worked example of RFC 6962 (section 2.1.3) |
| `Tree.dfy` | the tree with cached complete-subtree levels, as a class |
| `Rfc9162.dfy` | the bit-wise verifiers of RFC 9162 (sections 2.1.3.2, 2.1.4.2), equivalent to the recursive ones |
| `ProofCosts.dfy` | stored hashes, node hashes evaluated for roots and proofs, proof lengths, the closed form of issuance paths |
| `Records.dfy`, `Journal.dfy`, `Restart.dfy`, `Store.dfy` | records and their JSON, the journal as bytes and its replay, torn tails and whole runs, the store as a class |
| `CompactJson.dfy` | the journal's line format, compact JSON in UTF-8, which meets every assumption made about journal text, and concrete torn journals |
| `Receipts.dfy`, `Tampering.dfy`, `Offline.dfy` | receipts, heads, consistency answers; rewritten journals; the offline verifier |
| `TsaResponse.dfy`, `Chunked.dfy`, `Base64.dfy`, `HexBytes.dfy`, `Wire.dfy`, `ReceiptView.dfy` | DER framing and the digest scan, chunked bodies, base64, hexadecimal, the JSON views of heads, proofs and receipts |
| `Anchoring.dfy`, `Protocol.dfy`, `Executions.dfy` | one submission; all handlers as interleaved atomic steps; runs of them |
| `Durability.dfy`, `Views.dfy`, `Answers.dfy` | over whole runs: what survives failed writes and restarts; what the external-anchor views mean; which request every answer, head, record and view comes from |

## What is assumed

- The leaf and node hashes are arbitrary functions (`Hashing`). Soundness never assumes that they are
  injective: each soundness result returns a collision, a value whose two different inputs hash alike, or
  nothing, and says what holds in that case. Inclusion at a known position and consistency only ever
  return collisions inside one hash domain.
- Signing is a deterministic function of the canonical bytes that may fail (`Operator`). The public key accepts
  what the operator signs (`Offline.KeyOf`), whose names of suite and key can be read (`ReceiptView.SlotsReadable`).
  That it accepts nothing else, or only the heads of one log, is a hypothesis of just the results that say so
  (`Offline.OnlySignedBy`, `Offline.OnlyHeadsOf`). The digest of an anchor is an arbitrary function, too: results
  about it name the two byte strings of one digest.
- Times and hash texts of the other crates round-trip (`Formats.RoundTrip`). Journal text: a printed record
  stays on one line and reads back (`Faithful`), a record printed behind anything but white space is no record
  (`NoGluedRecords`), a record cut short is neither a record nor blank (`NoCutRecords`), and a line that starts
  with the beginning of a record is not blank (`CutsStayVisible`). `CompactJson.AssumptionsMet` proves all of it
  for records printed as compact JSON with sorted keys, encoded in UTF-8 and read back by a reader of such lines.
  Texts for times and hashes that round-trip exist (`CompactJson.FormatsRoundTrip`).
- Lossy UTF-8 decoding keeps ASCII text (`Chunked.KeepsAscii`).
- Sizes and sequence numbers are below 2^64, and so is a journal's length.

## Where code and documentation differ

- A torn final line is documented as tolerated. It is, for one start, unless the write was torn inside a
  multi-byte character, which is a read error (`CompactJson.TornWriteAtBoundary`, `CompactJson.TornCharacter`).
  But the tail is not truncated, so the next record written is lost or makes the following start fail
  (`Restart.AppendSurvivesExactly`, `CompactJson.TornJournal`). The same happens in a service that keeps running
  after a failed write that left bytes behind (`Restart.FailedWriteExact`).
- Sequence numbers are documented never to be reused, and heads never to move backwards. Both fail after a torn
  write: there is a run that answers two receipts for different commitments under number 0, each with a signed
  head of size 1, and that serves an empty log in between (`Durability.NumberReused`). A run ends with its journal
  in step, all its receipts still served and their numbers increasing exactly if every failed write that left
  bytes left its whole line and was followed by a restart before anything more was written
  (`Durability.DurableExactly`); the heads of such a run never move backwards (`Durability.HeadsMonotone`). After
  any other run the next record appended does not survive a restart, unless it repeats a record that a failed
  write left whole (`Durability.NextAppendSurvives`).
- `not-configured` is documented for a service without an authority. It is shown exactly until the first record is
  stored after a start (`Views.NotConfiguredExactly`), which without an authority is always (`Views.NoAuthority`).
- `stale` is described as naming an earlier head. It names a later one exactly if an entry was sequenced after the
  reader took its head and before the head of the stored record was taken (`Views.StaleExactly`). The size of
  the stored record goes down exactly if a submission is stored whose head was taken before that of an earlier
  stored one, with an entry sequenced in between (`Views.SizesNeverDownExactly`). `Views.UnpromisedViews` is a
  run in which all of this happens.
- `hex_decode` returns an option, but panics on text of even length in which, behind pairs that are all accepted, a
  pair ends inside a character (`HexBytes.PanicExactly`); and it accepts a plus sign in front of a digit
  (`HexBytes.DecodedExactly`).
- A foreign authority is documented to degrade explicitly. A reply with a chunk size line that promises data beyond
  the address range is a panic instead: `Chunked.UnchunkExactly` says exactly when, `Chunked.OverflowReached` builds
  such bodies behind any chunks, and `Chunked.OverflowAtOnce` is one that consists of a single line.
- A response for any other document is documented never to verify. The code accepts exactly the framed
  responses that contain the digest octets anywhere, so one response can be accepted for two documents
  (`TsaResponse.AcceptedForTwoDigests`), and is for one only exactly if all its candidate octet strings agree
  (`TsaResponse.OneDigestExactly`).
- `root_at_size` is documented to fold peaks from the high end; it folds them from the low end, with the same result.

## Model

| member | source | states |
|---|---|---|
| Bits.SplitBounds | src/tree.rs:34-39 | the split point is strictly below `n` and its double reaches `n` |
| Bits.SplitUnique | src/tree.rs:34-39 | every power of two that is strictly below `n` and whose double reaches `n` is the split point |
| Tree.MerkleTree.constructor | src/tree.rs:50-55 | the new tree has one empty level and satisfies the level invariant for no leaves |
| Tree.MerkleTree.Append | src/tree.rs:62-78 | the carry loop restores the level invariant (level `k` is exactly the hashes of the complete blocks of 2^k leaves, and there are floor(log2 size)+1 levels) for the leaves plus the new one, and costs one node hash for every trailing zero bit of the new size, so `n` appends cost exactly `n` minus the number of one bits of `n` |
| Tree.LevelsUnique | src/tree.rs:23-28 | the cached levels are determined by the leaves |
| Tree.LevelsArePrefixes | src/tree.rs:15-21 | appending only extends levels: every level of a prefix of the log is a prefix of that level |
| Tree.MerkleTree.LeafHashAt | src/tree.rs:80-83 | the leaf hash of the entry, none from the size on |
| Tree.MerkleTree.RootNow | src/tree.rs:85-88 | the Merkle Tree Hash of all leaves, none when empty, for one node hash less than the size has one bits |
| Tree.MerkleTree.RootAtSize | src/tree.rs:90-117 | the low-to-high fold over the bits of `s` computes the recursive Merkle Tree Hash of the first `s` leaves for every historical size, none for 0, and evaluates exactly one node hash less than `s` has one bits |
| Tree.MerkleTree.SubtreeHash | src/tree.rs:143-146 | a cached entry is the hash of its block of leaves |
| Tree.AlignedSplit | src/tree.rs:148-151 | the alignment invariant of the recursions: both halves of an aligned range are aligned, and the left one is a complete subtree |
| Tree.MerkleTree.RangeHash | src/tree.rs:148-160 | every aligned range hashes to the Merkle Tree Hash of its leaves, with all lookups in bounds, and evaluates exactly one node hash less than its length has one bits |
| Tree.MerkleTree.InclusionPath | src/tree.rs:119-127 | the path is the audit path of section 2.1.1 of RFC 6962 for the prefix alone, whatever was appended later; the node hashes evaluated are those `InclusionPathHashes` bounds |
| Tree.MerkleTree.PathInto | src/tree.rs:162-186 | the recursion appends the audit path inside its range to the path it is given |
| Tree.MerkleTree.ConsistencyPathFrom | src/tree.rs:129-139 | the proof is the one of section 2.1.2 of RFC 6962, empty from size 0; the node hashes evaluated are those `ConsistencyPathHashes` bounds |
| Tree.MerkleTree.SubProofInto | src/tree.rs:188-206 | the recursion appends the subproof of its range to the path it is given |
| MerkleSpec.InclusionComplete | src/tree.rs:119-127 | every audit path is accepted for its leaf, position and root |
| MerkleSpec.InclusionCollision | README.md:87-88 | an accepted path for a position is the honest path of the commitment stored there, exactly, or a collision is computed |
| MerkleSpec.MembershipCollision | README.md:87-88 | folding any siblings on any sides from a leaf hash to the root means the commitment is in the log, or a collision is computed |
| MerkleSpec.ConsistencyComplete | src/tree.rs:129-139 | from every prefix the proof verifies between the two roots, and it is empty exactly for the full prefix |
| MerkleSpec.ConsistencySound | README.md:89-91 | an accepted proof between the roots of two histories means the older is a prefix of the newer and the proof is the honest one, or a collision is computed |
| MerkleSpec.EqualRootsCollision | README.md:157-159 | two histories of one length with one root are equal, exactly, or a collision is computed |
| RfcExample.SevenLeaves | src/tree.rs:23-28 | the root, the audit paths and the consistency proofs of seven leaves are those written out in section 2.1.3 of RFC 6962 |
| Rfc9162.SidesUp | src/tree.rs:164-186 | the sides of a path, defined from the top by split points, are obtained from the bottom by halving position and size |
| Rfc9162.ConsistencySidesOdd | src/tree.rs:191-206 | a consistency proof of an odd prefix continues like the inclusion path of the prefix's last leaf |
| Rfc9162.LeftSpine | src/tree.rs:191-206 | the old tree stays anchored on the left spine exactly when its size is a power of two |
| Rfc9162.VerifyInclusionByBits | src/tree.rs:119-127 | the single-pass verifier of section 2.1.3.2 of RFC 9162 accepts exactly what the recursive one accepts |
| Rfc9162.VerifyConsistencyByBits | src/tree.rs:129-139 | the single-pass verifier of section 2.1.4.2 of RFC 9162 accepts exactly what the recursive one accepts |
| ProofCosts.StoredHashes | src/tree.rs:23-26 | the levels hold exactly `2n` minus the number of one bits of `n` hashes |
| ProofCosts.InclusionPathHashes | src/tree.rs:15-16 | producing an inclusion path takes at most one sibling that is not cached, and at most floor(log2 n) node hashes, none exactly if all siblings are cached |
| ProofCosts.ConsistencyPathHashes | src/tree.rs:15-16 | producing a consistency proof evaluates at most floor(log2 n) node hashes |
| ProofCosts.InclusionPathLength | src/tree.rs:119-127 | an inclusion path has at most ceil(log2 n) nodes |
| ProofCosts.ConsistencyPathLength | src/tree.rs:129-139 | a consistency proof has at most ceil(log2 n)+1 nodes |
| ProofCosts.IssuancePath | src/model.rs:107-111 | the path of a receipt has only left siblings: one for every peak but the last, one for every level of the last peak |
| Records.RecordRoundTrip | src/model.rs:46-91 | a record is read back from its JSON |
| Records.FromJsonExactly | src/model.rs:57-91 | a record is read if and only if the value is an object whose fields can be read, with a salt reference that is absent, null or unsigned, and is then what the fields say |
| Journal.ReplayExact | src/store.rs:90-136 | replay succeeds if and only if every line but a torn last one holds the record of its position, a torn line being readable, not blank and no record; the entries are then exactly those records, in sequence |
| Journal.ReplayErrorExactly | src/store.rs:95-136 | a journal is refused with an error if and only if the first line that stops the replay stops it with that error: the next line cannot be read, or this one is out of sequence, blank, or garbled with another behind it, with its number |
| Store.NextLine | src/store.rs:93-106 | one line comes off the front of what is left, and the lines of the text are that line and the lines of the rest |
| Store.LogStore.Open | src/store.rs:59-88 | a store on a file serves exactly what replay reads, or fails with replay's error; the file's bytes are never changed |
| Store.LogStore.Replay | src/store.rs:90-136 | the loop with one line of lookahead computes the replay of the whole file, error by error |
| Store.LogStore.Apply | src/store.rs:138-143 | entries and tree grow by the same record |
| Store.LogStore.Append | src/store.rs:145-170 | the number is the count of entries; the line is in the file before the record is in the store; a failed write leaves only its first bytes in the file and the store as it was |
| Store.LogStore.RecordAt | src/store.rs:179-182 | the entry at that index, which carries that number, and none exactly from the size on |
| Store.LogStore.RootAtSize | src/store.rs:189-195 | the root of every prefix of the entries, none beyond the log |
| Store.AppendAndReopen | src/store.rs:253-281 | an append and a reopen on the class do what the run semantics says: same entries, same levels, journal in step |
| Restart.LinesConcat | src/store.rs:93-106 | behind a terminated file, text is read as if it stood alone |
| Restart.LinesExactly | src/store.rs:93-106 | the lines of a text are what was written between its line ends, a carriage return in front of a line feed included in the line end, and what is left behind the last |
| Restart.CleanExactly | src/store.rs:95-128 | a replayed journal is clean exactly if it is terminated and its last line is a record |
| Restart.AppendKeepsClean | src/store.rs:161-169 | an append to a clean journal leaves it clean with exactly one more record |
| Restart.TornTailTolerated | src/store.rs:122-128 | one start after a torn tail keeps exactly the records before it |
| Restart.LastLineExactly | src/store.rs:108-136 | one unterminated line behind a clean journal is a read error, a record that must have the next number, corruption if blank, and ignored otherwise |
| Restart.TornWriteExact | src/store.rs:122-128 | a write cut after `n` bytes can be restarted from if and only if those bytes can be decoded, and then with the earlier records, and the new one if its line is complete |
| Restart.AppendSurvivesExactly | src/store.rs:77-85 | after any successful start, one more record survives the next restart if and only if the journal was clean; behind a terminated bad line the start fails; behind an unterminated tail the record is lost, and the start succeeds if and only if the glued line is readable, not blank and no record |
| Restart.FailedWriteExact | src/store.rs:161-167 | after a failed and a successful append the journal reads back as what is served if and only if the failed write left nothing |
| Restart.FailedWriteForever | src/store.rs:161-167 | after a failed append that left bytes and a successful one, no later start reads back what is served, and with anything more written every later start fails |
| Restart.RestartEquivalence | README.md:145-153 | from a clean journal, any interleaving of appends and restarts never fails, keeps file and entries in step, and ends as if never restarted |
| CompactJson.TakeRecordBack | src/model.rs:46-56 | a record printed as compact JSON with its strings escaped is read back in front of any text |
| CompactJson.PrintedRecord | src/store.rs:162-163 | a record's line, written out: sorted keys, no white space, its texts escaped |
| CompactJson.AssumptionsMet | src/store.rs:161-167 | a line of compact JSON reads back, holds no line feed, is never the end of another record's line behind something else, is never the beginning of another one, and is visible from its first byte on |
| CompactJson.TornWriteAtBoundary | src/store.rs:106-128 | a write of a record that stops after `n` bytes can be restarted from if and only if it does not stop inside a character |
| CompactJson.TornCharacter | src/store.rs:106-128 | a record with a two-byte character as its subject, and a byte count after which a torn write stops the service from starting |
| Utf8.CutExactly | src/store.rs:98-106 | encoded text that is cut is decoded if and only if no character is cut, and then to the characters before the cut |
| CompactJson.TornJournal | src/store.rs:322-333 | the first byte of any record as a torn journal: the first record appended is lost at the next start, and, once the torn line is terminated, the journal no longer starts |
| Receipts.ReceiptOf | src/model.rs:103-136 | the receipt computed from the cached levels is the one defined by the recursive hash and audit path of the entry's prefix |
| Receipts.CurrentHead | src/model.rs:157-180 | the head computed from the cached levels is the head over the recursive hash of all entries |
| Receipts.ReceiptSigned | src/model.rs:107-136 | a receipt exists exactly for an entry that the operator signs for; receipt and head name this log, and the head carries the operator's signature of the log id, size, time and root that it says |
| Receipts.CurrentHeadSigned | src/model.rs:162-180 | the same for the current head, which exists exactly if there are entries and the operator signs |
| Receipts.TreeConsistency | src/api.rs:396-438 | refused exactly beyond the log; otherwise both roots of one moment and a proof that verifies between them, empty exactly for size 0 and the full size |
| Receipts.ReceiptPermanent | src/model.rs:5-13 | a receipt is the same in every later state |
| Receipts.HeadIsLastReceiptHead | src/model.rs:157-161 | the head current at one moment is, in every later state, the head in the receipt of the entry that was last then |
| Receipts.ReceiptSurvivesRun | src/model.rs:12-13 | a receipt is the same after any run of appends and restarts on a clean journal |
| Receipts.ReceiptVerifies | src/api.rs:232-236 | a receipt verifies against its head, and the consistency proof from its size ties that head to the current root |
| Receipts.ReceiptPins | tests/integration.rs:371-381 | whoever holds a receipt and accepts a proof to another history sees one that starts with the same commitments, or a collision is found |
| Tampering.SameTreeExactly | README.md:293-295 | two stores have the same levels if and only if they have the same commitments, or a collision of leaves is found |
| Tampering.RootsOfTwo | README.md:293-295 | two stores with the same first commitments answer the same root for that prefix, whatever else their records say |
| Tampering.RewrittenLine | tests/integration.rs:336-345 | a clean journal with one line rewritten as another record of its number is clean, and replays to the same entries with that one changed |
| Tampering.TamperedJournal | tests/integration.rs:315-390 | a journal with one commitment rewritten starts with the same size; the roots up to that entry are the old ones and no later root is, earlier receipts are unchanged, and of every later receipt neither the inclusion proof fits the new root of its size nor is any consistency proof to the new head accepted, or a collision is found |
| Tampering.TamperEvident | tests/integration.rs:315-360 | histories that first differ at entry `i` agree on all prefix roots up to `i` and on none beyond, or a collision is found |
| Offline.OfflineCheck | README.md:82-92 | the verifier accepts exactly a commitment, proof and head of which the head is signed over all it says and the two proofs verify; the proofs are checked by the single-pass algorithms |
| Offline.HonestAccepted | README.md:52-59 | every receipt is accepted under the operator's key with the consistency proof of every later state |
| Offline.AcceptedSound | README.md:61-64 | an accepted receipt's commitment is in the history of its head and in the newer history, which extends it, at its index if the sizes agree, or a collision is found; and its head is signed by the operator if the key accepts nothing else |
| Offline.AcceptedSigned | README.md:82-84 | the head of whatever is accepted carries a signature that the key accepts for the log id, size, time and root it says, which is the operator's if the key accepts nothing else |
| Offline.ForeignRefused | src/model.rs:406-409 | a receipt with a replaced signature, or signed by another operator, is refused |
| Offline.AcceptedOfLog | README.md:61-64 | under a key that accepts signatures only for the heads of one log, whatever is accepted is under a head of that log and its commitment is in that log at that size, or a collision is found |
| TsaResponse.FindSubsequence | src/tsa.rs:309-314 | the first occurrence, or none if there is none |
| TsaResponse.DerReads | src/tsa.rs:165-200 | every definite-length encoding with up to four length bytes is read back, shortest or not |
| TsaResponse.DerReadsOnly | src/tsa.rs:165-200 | nothing else is read |
| TsaResponse.VerifyTimestampResponse | src/tsa.rs:125-157 | accepted exactly if the bytes start with a SEQUENCE whose content starts with a SEQUENCE and carry the digest octets somewhere; the digest is reported missing exactly if only that fails |
| TsaResponse.FramingExactly | src/tsa.rs:132-141 | which framing error is reported, exactly: no element, an element that is no SEQUENCE, no element in it, or a first element in it that is no SEQUENCE |
| TsaResponse.ElementExactly | src/tsa.rs:165-200 | the element read is the one the bytes start with, in any definite-length encoding with up to four length bytes |
| TsaResponse.BareDigestRefused | src/tsa.rs:132-135 | the digest alone as an octet string is refused, whatever follows it |
| TsaResponse.EchoRefused | src/tsa.rs:136-140 | a request that is sent back is refused, since its first element is a version number |
| TsaResponse.AcceptedForTwoDigests | src/tsa.rs:143-155 | one response is accepted for any two digests it carries |
| TsaResponse.OneDigestExactly | src/tsa.rs:143-155 | a response is accepted for at most one digest if and only if the same 32 bytes follow every 04 20 that has 32 bytes behind it |
| Chunked.JoinChunks | src/tsa.rs:250-274 | the loop terminates on every body and computes the decoding that `UnchunkExactly` characterises |
| Chunked.UnchunkEncoding | src/tsa.rs:250-274 | chunks with extensions, with or without a line end behind their data, decode to their concatenation, or to the error that the end of the body is |
| Chunked.UnchunkExactly | src/tsa.rs:250-274 | a body is decoded to some bytes if and only if it is chunks with these bytes and an end; it is refused as a bad size, as truncated, or with a panic exactly if it is chunks and a line that is no size, one with too little data, or one beyond the address range |
| Chunked.SizeLineSize | src/tsa.rs:258-260 | a size in hexadecimal with any ASCII extension behind a semicolon, or white space, is read as that size |
| Chunked.PaddedSize | src/tsa.rs:258-260 | white space at either end and a plus sign do not matter, and a size beyond the address range is none |
| Chunked.HexChunksRoundTrip | src/tsa.rs:250-274 | the usual encoding of any blocks, each with its own extension, decodes to their concatenation |
| Chunked.OverflowReached | src/tsa.rs:258-268 | behind any chunks, a size line of one of the three largest sizes that can be parsed makes the decoder panic, whatever follows |
| Chunked.OverflowAtOnce | src/tsa.rs:258-268 | witness: a body of one size line that makes the decoder panic |
| Base64.RoundTrip | src/tsa.rs:316-338 | a strict decoder for section 4 of RFC 4648 inverts the encoder; the length is four characters for every three bytes begun |
| Base64.TestVectors | src/tsa.rs:316-338 | vectors of section 10 of RFC 4648 |
| Base64.Base64Text | src/tsa.rs:316-338 | the loop computes that encoding |
| HexBytes.HexEncode | src/model.rs:187-195 | the loop computes the digits that decode to the bytes |
| HexBytes.HexRoundTrip | src/model.rs:187-205 | decoding undoes encoding |
| HexBytes.DecodedExactly | src/model.rs:197-205 | decoding succeeds if and only if every pair is two digits or a plus sign and a digit, and gives the value of each pair |
| HexBytes.EncodeUndoesExactly | src/model.rs:187-205 | encoding undoes decoding if and only if the text is lower-case digits only |
| HexBytes.PanicExactly | src/model.rs:197-205 | decoding panics if and only if the text has even length and, behind pairs that are all accepted, a pair ends inside a character |
| HexBytes.AsciiNeverPanics | src/model.rs:197-205 | ASCII text never panics |
| HexBytes.HexIsLenient | src/model.rs:197-205 | witnesses: two texts accepted without being encodings, one rejected, and one that panics |
| Wire.SthRoundTrip | src/model.rs:221-308 | a head is rebuilt from its view if and only if its signature is present |
| Wire.SthExactly | src/model.rs:258-308 | a head is read if and only if all fields of its view and of its signature can be read, and is then what they say |
| Wire.NodeExactly | src/model.rs:327-340 | a node of a path is read if and only if its sibling is a hash and its side one of two words |
| Wire.ProofFromJson | src/model.rs:310-344 | the loop accepts exactly well-formed views, returns their indexes and nodes in order, and otherwise the error of the first field missing or of the first node that is none |
| Wire.ProofThroughWire | src/model.rs:231-344 | a proof is rebuilt from its view |
| ReceiptView.CheckView | tests/integration.rs:52-59 | the verifier of a receipt's JSON accepts exactly the views whose commitment, proof, head and key can be read and pass the offline check, and then the head is signed by the operator if the key accepts nothing else |
| ReceiptView.ViewReadBack | src/model.rs:139-156 | commitment, proof, head and key bytes are read back from the view of a receipt |
| ReceiptView.FieldsReadBack | src/model.rs:142-156 | every other field of the view says what it is named for: the number, the log, and the whole record as the journal says it |
| ReceiptView.ProofFieldsReadBack | src/model.rs:231-241 | indexes, leaf hash and commitment of the proof in the view |
| ReceiptView.SelfContained | src/model.rs:139-156 | the view of any receipt of the log, with the key it carries and the consistency proof of any later state, is accepted |
| ReceiptView.ForgedViewRefused | tests/integration.rs:52-59 | the view of a receipt with its commitment exchanged is refused under every key, or a collision is found |
| Anchoring.SubmitAnchor | src/tsa.rs:72-99 | a reply is stored as anchored exactly if it is accepted for the digest; everything else degrades with a retry time |
| Anchoring.OutcomeExactly | src/tsa.rs:72-118 | every field of the record that a submission leaves, for a reply that binds to the digest and for everything else |
| Anchoring.ViewExactly | src/api.rs:372-389 | the view says not-configured, stale with the stored size, or this very record, each exactly when it applies |
| Anchoring.WireResponse | src/tsa.rs:57-69 | the response in the view decodes to the stored response, which carries the shown digest |
| Anchoring.RecordJson | src/tsa.rs:57-69 | every field of the view of a record reads back as that field |
| Protocol.CommitLocked | src/api.rs:284-298 | appending to the store and deriving the receipt from the cached levels under one lock takes file, entries and answer to exactly the state of the sequencing step, and the answer, if the write succeeds, is for the record that was asked for under the number of entries before it |
| Protocol.FitsLater | src/api.rs:299-320 | heads, anchor records, receipts and views stay right when the log grows under them |
| Protocol.ActKeeps | src/api.rs:284-319 | every atomic step keeps the invariant, and only a restart can shorten the log |
| Protocol.Safety | src/api.rs:284-390 | in every interleaving, failed writes and restarts included, numbers are contiguous, the stored record has the digest of the unique head of its size, and a view that is neither stale nor not-configured has the digest of the head beside it and a response that carries it |
| Protocol.DigestBinds | src/tsa.rs:40-40 | two heads of one digest have the same canonical bytes, or these are two byte strings of one digest |
| Protocol.AnchorsOneHead | README.md:185-198 | in every run a stored response that could carry one digest only anchors no head but the one of the size it was stored for, or two byte strings of one digest are found |
| Answers.RunTraced | src/api.rs:284-322 | in every run each answer is none exactly if the write of its own request failed, and otherwise an issued receipt of the record its own request asked for; each head is the one current when it was taken or read, each record is what the commit's own reply to that head's digest comes to, the stored one is that of the commit that stored last, and no commit is forgotten |
| Answers.AnswerExactly | src/api.rs:321-324 | the answer of a commit, told from its request alone: none if the write failed, and otherwise the receipt that the log derives for the entry that the request made |
| Answers.SequencedOnce | src/api.rs:284-298 | in one process a request is sequenced once |
| Answers.SubmissionTraced | src/api.rs:385-389 | a view that shows a submission shows, unchanged, the record of the commit that had stored last when it was read |
| Answers.PoisonedExactly | src/api.rs:284-298 | the store lock is poisoned exactly if an entry of this process could not be signed for |
| Answers.PoisonBlocks | src/api.rs:285-285 | then no commit begins and no head is read or taken for an authority until a restart |
| Answers.Progress | src/api.rs:284-319 | without a panic every new request can begin and every begun one can go on, whatever else is in flight |
| Durability.DurableExactly | README.md:137-153 | every run from an empty log, whatever interleaves, failed writes and restarts included, ends with a clean journal that reads back as what is served if and only if every failed write that left bytes left its whole line and was followed by a restart before anything more was written; and the same condition decides whether, besides, all receipts answered are still served unchanged under increasing numbers |
| Durability.MendableKeeps | src/store.rs:145-170 | a run that only lacks that last restart ends with one record ahead in its journal, and loses no receipt |
| Durability.UnmendableRuins | src/store.rs:161-167 | every other run ends with a terminated line that does not hold its record, or a record begun in the tail, and no step removes that |
| Durability.UntornIsMended | src/store.rs:161-167 | without torn writes the condition holds, and in runs without restarts it holds only then |
| Durability.GrowsWhileMendable | README.md:130-134 | while the condition can still be met, neither the log nor the sequence of receipts ever shrinks or changes, restarts included |
| Durability.HeadsMonotone | src/api.rs:239-239 | in such a run the head current before any step stays the head of its size, never exceeds a later one, and is tied to it by the consistency proof |
| Durability.NextAppendSurvives | src/store.rs:77-85 | the next record appended survives a restart if the condition holds, and otherwise does not, unless a terminated line of the journal already holds that very record |
| Durability.NumberReused | README.md:130-134 | witness: a run with two receipts for different commitments under one number and of one tree size, and an empty log served between them |
| Views.Remembered | src/api.rs:299-319 | in every run, each head, record and view carries the size the log had when its head was taken |
| Views.NotConfiguredExactly | src/api.rs:372-375 | a view says `not-configured` if and only if no record was stored between the last start and its reading of the anchor |
| Views.NoAuthority | README.md:178-181 | without a configured authority nothing is ever stored and every view in every run says `not-configured` |
| Views.StaleExactly | src/api.rs:372-384 | a view is stale with a later size if and only if an entry was sequenced between its head and that of the stored record, with an earlier size if and only if one was sequenced the other way round, and never later if nothing was sequenced between the reader's two locks |
| Views.SizesNeverDownExactly | src/api.rs:317-317 | the stored size never goes down within a process if and only if no submission is stored whose head was taken before that of an earlier stored one with an entry sequenced in between |
| Views.UnpromisedViews | src/api.rs:372-384 | witness: a run with a not-configured view despite a configured authority, a stale view that names a later size, and a stored record whose size goes down |

## Left out

- The hash and signature algorithms, canonical bytes, time parsing and their crates are not part of this model: they are parameters.
- The signature crate is not part of this model: a public key is any test of a message and a signature that accepts what the operator signs, the recursive verifiers here are derived from the proof shapes, and the single-pass ones from RFC 9162.
- The full JSON grammar is abstract: the values the service reads and writes are modelled, and as text only the lines it writes itself; `WireError` keeps which field is at fault, not the wording.
- Sockets, time limits, HTTP status and header parsing, URL parsing: a submission is a reply or none.
- Directory creation, opening and reading failures of the journal file other than undecodable text; a serialization failure of a record.
- Bearer tokens, request-field validation, discovery, health check, routing and configuration: they run before or beside the steps modelled and touch neither the log nor the journal nor the anchor record, so no property here depends on them.
- Handlers run as steps of a state machine on values, since their interleaving is the point; the same sequential operations are proved on the classes `MerkleTree` and `LogStore`. The state machine always has a journal; the store without one is only in the class.
- The recursions that push onto a mutable path return the extended path instead.
- The `external_anchor` field of a signed head, which this service always leaves empty; the anchor's digest is the hash of the head's canonical bytes.
- Clock order: nothing is claimed about times.
- The JSON around the anchor record in the answer to a head request is not modelled, only the record's own view and which of three cases applies.
- Tree.MerkleTree.Append: requires room for one more entry below 2^64, since the size is a `u64` whose overflow is not modelled.
- Store.LogStore.Open: requires the journal to be shorter than 2^64 bytes, as file sizes are.
- Rfc9162.VerifyConsistencyByBits: is for two different non-empty sizes, as section 2.1.4.2 of RFC 9162 is; equal sizes are compared directly in `Offline.OfflineCheck`.
- Wire.SthRoundTrip: assumes that the head's suite and key id are names their parsers accept.
