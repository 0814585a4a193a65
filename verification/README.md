# Verification of the agentcreds artifacts

A Dafny model of the parts of agentcreds that other organizations rely on without
calling back: the canonical text of JSON arguments, `did:key` identifiers, the signed and
hash-chained artifacts, the revocation list, and single use of an A2A header. `dafny verify
dfyconfig.toml` checks the project.

| files | component |
|---|---|
| `Json`, `KeyOrder`, `Jcs` | JSON values and the RFC 8785 writer (`jcs.rs`) |
| `JsonReader`, `JcsRoundTrip`, `Escapes` | an independent RFC 8259 reader, that it inverts the writer, and that the writer's escapes are the shortest |
| `Binding`, `Transitivity` | structural equality (`binding.rs`) against canonical text, and how far it is an equivalence |
| `Runtimes` | the runtime that holds every number as a double (`index.js`) against the others |
| `Hazards`, `HazardPointers` | the precision-hazard search and RFC 6901 pointers |
| `Base58`, `Did` | base58 and `did:key` (`did.rs`) |
| `Transcript`, `Signed`, `Sorting`, `Wrappers` | length-prefixed transcripts, ideal hashes and signatures, the stable sort |
| `Rotation`, `RotationRuns` | key histories, and every run of them (`rotation.rs`) |
| `Approval` | approver directories and approval evidence (`approval.rs`) |
| `Adr`, `AdrStream` | decision records and the stream that chains them (`adr.rs`) |
| `Audit`, `AuditRuns`, `AuditGrowth`, `Equivocation` | logs, commitments and the compositor, every run of it, growing logs and equivocation (`audit.rs`) |
| `Compliance`, `Evidence` | evidence bundles (`compliance.rs`) |
| `Revocation` | the packed revocation list and its token (`revocation.rs`) |
| `Pop`, `ReplayGuard`, `A2A` | freshness, the Node replay guard and single use (`pop.rs`, `index.js`) |
| `Registry` | the trust registry and its signed configuration (`registry.rs`) |
| `Intent` | alignment evidence and quorums (`intent.rs`) |
| `Separation` | the hashes of all these artifacts keep apart |

## How it is modelled

- **Hashes.** SHA-256 is a free constructor `Sha256(preimage)`. A transcript is a sequence of
  symbols: bytes, a raw digest (32 bytes wide), a digest in hexadecimal (64) and a signature in
  base64. So "equal digests" means "equal transcripts", and what is proved about a digest is
  that its length prefixes, presence bytes and counts make the transcript unambiguous.
- **Signatures.** A signature is the symbol (key, message). It verifies under exactly that key
  and message.
- **Identifiers.** What is proved about artifacts holds for every way of parsing an identifier
  into a key (`KeyParser`); `DidKeys` is the parser of `did:key`.
- **Numbers.** A finite non-zero double is the shortest decimal that Rust's `{:e}` prints: sign,
  digits with no leading or trailing zero, exponent. Converting an integer beyond 2^53-1 to a
  double is a parameter `wide`.
- **Time and randomness.** Instants are nanoseconds; digests see whole seconds, rounded down.
  Clock readings, salts, nonces, bundle ids and resolver answers are parameters.
- **State.** Objects the source updates in place are classes; each method is proved against a
  function of the old state, and the theorems are about runs of those functions. Running hashes
  are absorbed by a `Hasher` object.

## What the code does not do, although it might be expected to

- `bs58_encode` writes one `1` too many when every byte is zero, and is inverted exactly on all
  other inputs (`Base58.DecodeEncoded`).
- `semantic_eq` is reflexive and symmetric, and not transitive beyond 2^53: of three values equal
  in a chain the ends are equal exactly when no position of them holds two distinct integers
  (`Transitivity.TransitiveExactly`, with inputs in `Transitivity.NeighboursBreakTransitivity`).
- It agrees with canonical text exactly where no position compares an integer with the double it
  converts to while that double's shortest decimal is another number
  (`Binding.ProfilesAgreeExactly`). The double may even equal the integer: 2^60 is written
  `1152921504606847000` (`Binding.LargeDoublePrintsOtherwise`).
- A runtime that holds every number as a double writes another text exactly for values with an
  integer whose double prints otherwise (`Runtimes.TextConvertedExactly`), and accepts exactly the
  pairs the others accept and those with distinct integers that convert alike
  (`Runtimes.EqualityConvertedExactly`).
- `KeyHistory::push` does not look at the repudiated keys. After a seal the current key is
  refused exactly when the last rotation reinstated a repudiated key (`RotationRuns.CurrentKeyAccepted`,
  with a run in `RotationRuns.ReinstatedKeyIsRefused`).
- Entries that share an identifier keep the order they were given, so two orders of an approver
  directory have one digest exactly when the entries of every identifier come in the same order, up
  to fractions of seconds (`Approval.SealForgetsOrderExactly`); two entries of one identifier and
  different keys are an input where they do not (`Approval.SharedIdentifierShowsOrder`).
- An ingestion that fails leaves verified entries behind, possibly out of order until the next one
  that succeeds; the chain is in order exactly under the condition of `AuditRuns.InOrderExactly`
  (`AuditRuns.FailureLeavesUnsorted` is an input).
- The signature of an audit commitment covers whole seconds only, so a relayed commitment with an
  altered fraction is accepted (`Audit.CommitmentPayloadExact`); what a run shows of a log is its log up to that
  (`AuditGrowth.ExportNeverConflicts`).
- `root_hash` has no domain of its own: it is a commitment's payload exactly for the chain of that
  one commitment (`Separation.RootHashSharesDomain`). It and all the other hashes keep apart from those
  of every other kind (`Separation.ArtifactsSeparate`).
- A header can be admitted twice if the guard is consulted late. How late is a function of the
  maximum age, just under 53 seconds after the freshness check from a minute on (`A2A.PromptnessIs`);
  up to that it cannot (`A2A.AdmittedAtMostOnce`), one nanosecond later it can, for every maximum age
  and start within 253 500 years of the epoch (`A2A.LaterIsTooLate`).
- The report of an evidence bundle describes its signals as those of the denials; the code
  collects them from every record. They are the same exactly when every signal of an allow is raised
  by a denial too (`Evidence.SignalsAreOfDenialsExactly`, with an input in `Evidence.AllowCanRaise`),
  and so for every bundle of records the code itself made (`Evidence.MadeRecordsReportDenials`).

## Model

| member | source | states |
|---|---|---|
| Jcs.Canonicalize | agentcreds-core/src/jcs.rs:121-125 | writes the specified text, and fails exactly when some number is not finite |
| Jcs.Writer.WriteValue | agentcreds-core/src/jcs.rs:127-165 | appends the value's text to the shared output and nothing else; refuses exactly non-finite numbers |
| Jcs.Writer.WriteString | agentcreds-core/src/jcs.rs:174-193 | appends the quoted, escaped string character by character |
| Jcs.WriteNumber | agentcreds-core/src/jcs.rs:207-222 | integers exactly, other finite numbers by the ECMAScript layout |
| Jcs.EsNumberToString | agentcreds-core/src/jcs.rs:227-269 | the four layout branches compute the specified text |
| KeyOrder.SortKeys | agentcreds-core/src/jcs.rs:148-149 | the keys of a map come out as the one sequence strictly increasing by UTF-16 code unit, whatever the map's order |
| KeyOrder.SortedKeysAscend | agentcreds-core/src/jcs.rs:148-149 | of any two keys written, the earlier one, at the first code unit where they differ, has ended or has the smaller unit; every key is written once |
| KeyOrder.KeyLessExactly | agentcreds-core/src/jcs.rs:148-169 | the key order is exactly the order by first difference of the code units |
| KeyOrder.Utf16RoundTrip | agentcreds-core/src/jcs.rs:167-169 | the code units of a string decode to it as UTF-16, surrogate pairs included |
| KeyOrder.Utf16Injective | agentcreds-core/src/jcs.rs:167-169 | strings with the same code units are the same string, so the key order has no ties |
| JcsRoundTrip.EsNumberLayout | agentcreds-core/src/jcs.rs:227-269 | the printed text is a JSON number that denotes exactly the sign, digits and exponent; it has an exponent exactly below 10^-6 and from 10^21 on, then one digit before the point, and no fraction ends in zero |
| JcsRoundTrip.NumberRoundTrip | agentcreds-core/src/jcs.rs:207-269 | an independent reader stops at the end of a printed number and has read its value, whatever follows |
| JcsRoundTrip.StringRoundTrip | agentcreds-core/src/jcs.rs:171-193 | an independent reader gets every escaped string back unchanged |
| Escapes.EscapeIsShortest | agentcreds-core/src/jcs.rs:171-193 | of all texts a JSON reader reads as a character, the one written is the shortest, and no other is as short but one with upper-case hexadecimal digits |
| JcsRoundTrip.ValueRoundTrip | agentcreds-core/src/jcs.rs:127-193 | the text of any value, followed by anything, is read back as the value's meaning with exactly the rest left over |
| JcsRoundTrip.CanonicalTextParses | agentcreds-core/src/jcs.rs:114-165 | a JSON reader consumes the canonical text exactly and yields the value's meaning |
| Binding.SameTextIffSameMeaning | agentcreds-core/src/jcs.rs:114-165 | two finite values have one canonical text if and only if they mean the same |
| Binding.IntegralDoubleText | agentcreds-core/src/jcs.rs:227-252 | a double prints as a 64-bit integer does if and only if the double's shortest decimal denotes that integer |
| Binding.LargeDoublePrintsOtherwise | agentcreds-core/src/jcs.rs:227-252 | the integer 2^60 and the double that equals it are structurally equal and print differently |
| Binding.ProfilesAgreeExactly | agentcreds-core/src/binding.rs:88-131 | for all finite values, canonical texts agree if and only if the values are structurally equal and no position holds an integer beyond the safe range against the double it converts to while that double's shortest decimal is another number |
| Binding.ExactConversionQualifies | agentcreds-core/src/binding.rs:118-131 | a conversion to double exists that meets what these results assume of one |
| Binding.ProfilesAgree | agentcreds-core/src/binding.rs:88-131 | without precision hazards, canonical texts agree if and only if the values are structurally equal |
| Transitivity.SemanticEqIsReflexive | agentcreds-core/src/binding.rs:88-131 | every finite value is structurally equal to itself |
| Transitivity.SemanticEqIsSymmetric | agentcreds-core/src/binding.rs:88-131 | structural equality is symmetric on all values |
| Transitivity.TransitiveExactly | agentcreds-core/src/binding.rs:88-131 | of any three finite values equal in a chain, the ends are equal if and only if no position of them holds two distinct integers |
| Transitivity.SemanticEqIsEquivalence | agentcreds-core/src/binding.rs:88-131 | reflexive and symmetric on all finite values, and transitive without precision hazards |
| Transitivity.NeighboursBreakTransitivity | agentcreds-core/src/binding.rs:118-131 | any two distinct integers, of either sign, beyond the safe range that convert to one double both equal it and not each other |
| Transitivity.SemanticEqIsNotTransitive | agentcreds-core/src/binding.rs:118-131 | 2^53 and 2^53+1 are such integers |
| Runtimes.TextConvertedExactly | agentcreds-runtime-node/index.js:95-125 | for every finite value, the text of the runtime that holds numbers as doubles is the canonical text if and only if no position holds an integer whose double's shortest decimal is another number |
| Runtimes.HazardFreeTextAgrees | agentcreds-runtime-node/index.js:95-125 | without precision hazards the two texts are always the same |
| Runtimes.EqualityConvertedExactly | agentcreds-runtime-node/index.js:196-220 | a pair of finite values is equal to the other runtimes if and only if it is equal to that one and no position of it holds two distinct integers |
| Hazards.Walk.Visit | agentcreds-core/src/jcs.rs:72-105 | the shared pointer buffer is restored on return, and exactly the hazards under it are appended |
| Hazards.PrecisionHazards | agentcreds-core/src/jcs.rs:66-70 | the whole search from the empty pointer |
| Json.HazardousExactly | agentcreds-core/src/jcs.rs:54-61 | an integer is reported exactly from 2^53 on, on both sides |
| HazardPointers.ReportIsExact | agentcreds-core/src/jcs.rs:56-105 | a pair is reported if and only if its pointer evaluates (RFC 6901) to an integer beyond the safe range with that text; no pointer twice; nothing reported if and only if the value is hazard-free |
| Base58.Encode | agentcreds-core/src/did.rs:353-377 | the nested digit and carry loops compute the digits of the base-256 value, with no overflow of the carry |
| Base58.AbsorbByte | agentcreds-core/src/did.rs:356-367 | one byte: multiplies the digit array by 256 and adds, the carry at most 255 between digits |
| Base58.DecodeEncoded | agentcreds-core/src/did.rs:353-377 | decoding inverts encoding if and only if some byte is non-zero |
| Base58.EncodedDecoded | agentcreds-core/src/did.rs:353-377 | a text that decodes to such bytes is the one the encoder writes |
| Did.ToMultibase | agentcreds-core/src/did.rs:150-160 | the multibase text of a key |
| Did.MultibaseSpells | agentcreds-core/src/did.rs:150-160 | the text decodes to the two bytes of the key type, 0xed 0x01 or 0x12 0x00, and then the key |
| Did.FromDidKeyExact | agentcreds-core/src/did.rs:174-214 | an identifier parses to a key if and only if the key has its algorithm's length and the identifier is the one assembled from it |
| Did.DidKeyInjective | agentcreds-core/src/did.rs:150-214 | distinct well-sized keys have distinct identifiers |
| Did.MultibaseInjective | agentcreds-core/src/did.rs:150-160 | distinct keys of any length have distinct multibase texts |
| Transcript.CertifiedKey | agentcreds-core/src/did.rs:174-214 | among anchors built from `did:key`, equal identifiers and equal keys are the same thing |
| Transcript.FieldPrefix | agentcreds-core/src/rotation.rs:54-57 | a length-prefixed field, digests and signatures inside it included, ends where its length says, whatever follows |
| Transcript.Le64Denotes | agentcreds-core/src/rotation.rs:54-57 | the eight bytes written for an integer denote it, least significant first, negative ones modulo 2^64 |
| Transcript.StrLeqExactly | agentcreds-core/src/rotation.rs:203-208 | identifiers are ordered by the first byte where they differ |
| Transcript.ListingPrefix | agentcreds-core/src/rotation.rs:196-208 | a counted list of self-delimiting items can be read in one way only |
| Rotation.KeyHistory.PushStatement | agentcreds-core/src/rotation.rs:175-186 | succeeds if and only if the statement names the current key and verifies under it; appends it and changes nothing else, the seal included |
| Rotation.KeyHistory.RepudiateKey | agentcreds-core/src/rotation.rs:233-247 | succeeds if and only if the key is held and not current; records it once and clears the seal |
| Rotation.KeyHistory.SealBy | agentcreds-core/src/rotation.rs:257-272 | signs the new version and expiry; a seal that cannot sign still changes them and clears the old one |
| Rotation.KeyHistory.DigestNow | agentcreds-core/src/rotation.rs:191-218 | the running hash absorbs exactly the specified transcript |
| Rotation.KeyHistory.Verify | agentcreds-core/src/rotation.rs:336-351 | the loop accepts if and only if the root is the trusted one and every rotation links and verifies, and returns the current key |
| Rotation.KeyHistory.VerifySealed | agentcreds-core/src/rotation.rs:290-304 | and additionally the current key's seal verifies |
| Rotation.KeyHistory.AuthorizeIssuer | agentcreds-core/src/rotation.rs:389-402 | accepts if and only if sealed, fresh, and the issuer is held and not repudiated; returns the issuer's verify-only anchor |
| Rotation.ChainIsSigned | agentcreds-core/src/rotation.rs:336-351 | in an accepted chain every rotation leads on from the key in office, whose signature covers it |
| Rotation.RepudiationsAscend | agentcreds-core/src/rotation.rs:203-208 | a seal covers the repudiated keys, all of them, in ascending order |
| Rotation.SealTranscriptExact | agentcreds-core/src/rotation.rs:188-218 | two histories have one seal digest if and only if they agree on version, root, every rotation, expiry and the repudiated keys up to order |
| Rotation.SealBinds | agentcreds-core/src/rotation.rs:290-304 | a history under the signature made for another verifies if and only if it is that one, up to what the seal does not cover, and the signer is its current key |
| Rotation.StatementPayloadExact | agentcreds-core/src/rotation.rs:91-98 | two rotation statements have one payload if and only if they agree on both identifiers and the second |
| RotationRuns.RunInvariant | agentcreds-core/src/rotation.rs:175-272 | over every run of pushes, repudiations and seals, failing ones included, the chain verifies from its root and the signature is that of the last seal, with its version and expiry, or of an earlier chain |
| RotationRuns.SealVerifiesExactly | agentcreds-core/src/rotation.rs:257-304 | after any run the seal verifies if and only if the last change was a seal by an anchor whose identifier names its key |
| RotationRuns.AuthorizesExactly | agentcreds-core/src/rotation.rs:306-402 | after any run a relying party that pins the root accepts exactly the active keys while the last change is an unexpired seal, and nothing otherwise |
| RotationRuns.AcceptedExactly | agentcreds-core/src/rotation.rs:175-402 | in terms of the run alone: while the last change is an unexpired seal, exactly the root and the keys of successful pushes are accepted, less those successfully repudiated |
| RotationRuns.RepudiatedExactly | agentcreds-core/src/rotation.rs:233-247 | over every run a key is recorded as repudiated if and only if a repudiation of it succeeded, and is recorded once |
| RotationRuns.CurrentRepudiatedExactly | agentcreds-core/src/rotation.rs:175-247 | the current key is repudiated if and only if the last rotation went to a key repudiated at the time |
| RotationRuns.CurrentKeyAccepted | agentcreds-core/src/rotation.rs:389-402 | after an unexpired seal the current key is accepted if and only if the last rotation did not reinstate a repudiated key |
| RotationRuns.RepudiationIsPermanent | agentcreds-core/src/rotation.rs:220-247 | once repudiated, a key is not accepted at any later point of any run |
| RotationRuns.SupersededStaysAccepted | agentcreds-core/src/rotation.rs:373-402 | a key held at any point and not repudiated is accepted whenever the last change is an unexpired seal |
| RotationRuns.FreshSuccessorsNeverReinstate | agentcreds-core/src/rotation.rs:175-247 | when every rotation that succeeds is to a key never held before, none reinstates one |
| RotationRuns.FreshCurrentKeyAccepted | agentcreds-core/src/rotation.rs:175-402 | over every such run the current key is accepted after every certified, unexpired seal |
| RotationRuns.ReinstatedKeyIsRefused | agentcreds-core/src/rotation.rs:175-402 | rotating there and back after a repudiation succeeds at every step and leaves a sealed history whose own current key is refused |
| Approval.EntriesEndWhereTheyMust | agentcreds-core/src/approval.rs:171-192 | with no count written, the length left decides whether an entry or the trailer comes next, so entries and expiry are determined |
| Approval.DirectoryTranscriptExact | agentcreds-core/src/approval.rs:165-194 | two directories have one digest if and only if they agree on everything but fractions of seconds |
| Approval.DigestOf | agentcreds-core/src/approval.rs:165-194 | the running hash absorbs exactly the specified transcript |
| Approval.Seal | agentcreds-core/src/approval.rs:145-163 | sorts by identifier and signs, or fails without a private key |
| Approval.SealedAscends | agentcreds-core/src/approval.rs:145-163 | a sealed directory says the version, times and issuer it was given and holds exactly the entries given, ascending by identifier |
| Approval.SealForgetsOrderExactly | agentcreds-core/src/approval.rs:143-163 | two orders of the entries have one digest if and only if the entries of every identifier come in the same order, as far as a digest can tell them apart |
| Approval.SharedIdentifierShowsOrder | agentcreds-core/src/approval.rs:143-163 | two entries that share an identifier can be exchanged without changing the digest if and only if they agree on key, roles and the second of their expiry |
| Approval.SealedAlikeExactly | agentcreds-core/src/approval.rs:143-163 | two orders seal to equal directories, fractions of seconds included, if and only if the entries of every identifier are the same in the same order |
| Approval.AcceptedDirectoryIsSealed | agentcreds-core/src/approval.rs:196-211 | a directory under the anchor's signature of another is accepted if and only if it is that one and unexpired |
| Approval.FirstLiveExactly | agentcreds-core/src/approval.rs:215-219 | the lookup gives the entry at the least index whose identifier is the approver's and that has not expired, if there is one |
| Approval.EvidencePayloadExact | agentcreds-core/src/approval.rs:263-290 | two pieces of evidence have one payload if and only if they differ at most in the signature: anchor and key mode cannot be confused, nor the approver swapped |
| Approval.AnchorEvidenceExact | agentcreds-core/src/approval.rs:342-368 | evidence under the anchor's signature of another is accepted if and only if it is that one, for its action and before expiry |
| Approval.EnrolledApproverIsAccepted | agentcreds-core/src/approval.rs:322-431 | what an approver's key signs is accepted, before expiry and for the action it names, if and only if the directory is unexpired and, of the sealed entries, the first unexpired one of the approver's key holds the role |
| Approval.EvidenceIsTamperEvident | agentcreds-core/src/approval.rs:370-431 | evidence and directory under given signatures are accepted if and only if nothing covered was changed and the originals are accepted |
| Approval.ConsumedApprovals.TryConsume | agentcreds-core/src/approval.rs:456-458 | one call: true if and only if the identifier was not recorded, and then it is |
| Approval.AcceptedExactlyOnce | agentcreds-core/src/approval.rs:443-464 | over every run of calls each identifier is accepted exactly once, the first time |
| Adr.DecisionDigestExact | agentcreds-core/src/adr.rs:544-594 | two records have one digest if and only if they agree on all but sequence number, fraction of second, and absent versus empty action or reason |
| Adr.DigestOf | agentcreds-core/src/adr.rs:546-594 | the running hash absorbs exactly the specified transcript |
| AdrStreams.AdrStream.Record | agentcreds-core/src/adr.rs:749-757 | stamps the record, advances count and head by one link, and hands the stamped record to every sink as often as it is subscribed |
| AdrStreams.ResumeAt | agentcreds-core/src/adr.rs:722-738 | a stream with the given count and the head that the text spells |
| AdrStreams.AdrStream.SignCheckpoint | agentcreds-core/src/adr.rs:775-785 | a checkpoint of the current count and head |
| AdrStreams.Replay | agentcreds-core/src/adr.rs:807-815 | the loop folds the records into the specified head |
| AdrStreams.ReplayFollowsRecording | agentcreds-core/src/adr.rs:749-815 | replaying what a stream returned, from where it started, gives its head |
| AdrStreams.ResumingNeverShows | agentcreds-core/src/adr.rs:712-757 | stopping, saving count and head, resuming and continuing gives the same stream and the same records as never stopping |
| AdrStreams.RecordsAreNumbered | agentcreds-core/src/adr.rs:749-757 | a stream returns its records numbered one after the other from its count |
| AdrStreams.ReplayExact | agentcreds-core/src/adr.rs:794-815 | two logs lead to one head if and only if they hold the same records with the same numbers in the same order |
| AdrStreams.CheckpointIsTamperEvident | agentcreds-core/src/adr.rs:834-856 | a checkpoint under the signature of another is accepted if and only if it is that one |
| AdrStreams.CheckpointProvesLog | agentcreds-core/src/adr.rs:770-856 | a log leads to an authentic checkpoint's head if and only if it has `count` records, numbered from zero, showing what the stream recorded |
| AdrStreams.SinkHoldsMostRecent | agentcreds-core/src/adr.rs:634-679 | from whatever it holds, a bounded sink comes to hold exactly the most recent decisions, oldest first |
| AdrStreams.InMemorySink.Emit | agentcreds-core/src/adr.rs:672-678 | drops the oldest when full and appends |
| Audit.CommitmentExact | agentcreds-core/src/audit.rs:94-106 | two records have one commitment if and only if they agree on everything but the fraction of the second |
| Audit.CommitmentPayloadExact | agentcreds-core/src/audit.rs:130-139 | two commitments have one signed payload if and only if they agree on everything but the fraction of the second and the signature |
| Audit.AuditLog.RecordAt | agentcreds-core/src/audit.rs:194-215 | appends the record numbered by the log's length and keeps the log well-kept |
| Audit.AuditLog.Export | agentcreds-core/src/audit.rs:222-241 | one signed commitment per record in order; fails for another organization's anchor or one that cannot sign |
| Audit.AuditCompositor.IngestBatch | agentcreds-core/src/audit.rs:298-336 | the loop and the sort compute the specified outcome, including what a failure leaves behind |
| Audit.AuditCompositor.RootOf | agentcreds-core/src/audit.rs:345-356 | the running hash absorbs exactly the specified transcript |
| AuditRuns.RunInvariant | agentcreds-core/src/audit.rs:298-336 | over every run of ingestions, failing ones included, no (organization, number) is composited twice and every entry was signed by its organization's anchor for this correlation |
| Equivocation.AbsorbExactly | agentcreds-core/src/audit.rs:298-328 | one commitment is accepted if and only if it is for the correlation, signed by its organization's anchor, and commits to what is held under its number if anything is; it is added only if nothing is |
| Equivocation.EquivocationIsCaught | agentcreds-core/src/audit.rs:298-328 | every ingestion of a run goes through if and only if every commitment in it is authentic and no organization commits to two different things under one number, in whatever batches and order |
| AuditRuns.OrderNeverShows | agentcreds-core/src/audit.rs:298-356 | the same authentic, consistent commitments in any batches, order and repetition give one chain of custody and one root hash |
| AuditRuns.ConsistentRun | agentcreds-core/src/audit.rs:298-336 | and that chain holds exactly what was committed to, in order of time |
| AuditRuns.SortedIsChronological | agentcreds-core/src/audit.rs:329-334 | a chain is in order if and only if it is chronological, at one instant by organization and then by its own numbering |
| AuditRuns.RootHashExact | agentcreds-core/src/audit.rs:345-356 | two chains have one root hash if and only if they are for one correlation and show the same entries in order, although no count is written |
| AuditGrowth.LaterExportAddsTheLog | agentcreds-core/src/audit.rs:222-336 | while all an organization has composited shows records of its log, exporting the grown log never conflicts and adds exactly the records not held yet |
| AuditGrowth.ExportNeverConflicts | agentcreds-core/src/audit.rs:194-336 | over every run in which every signature that verifies under an organization's anchor was made to export its log, exporting the grown log is accepted, adds exactly the records not held yet and then shows every record |
| AuditGrowth.DisclosedIsLogged | agentcreds-core/src/audit.rs:358-370 | over every such run a disclosed record of the organization is accepted only if it is in its log, up to the fraction of its second |
| AuditGrowth.DisclosureExact | agentcreds-core/src/audit.rs:358-370 | a disclosed record is accepted for a shown one if and only if it is that record, up to the fraction of its second |
| AuditRuns.IngestionAppends | agentcreds-core/src/audit.rs:303-328 | before the sort, an ingestion leaves the earlier entries in place and appends the new ones that precede the first refused commitment, in order |
| AuditRuns.InOrderExactly | agentcreds-core/src/audit.rs:298-336 | over every run the chain is in order if and only if the last ingestion succeeded, whatever failed before, or it failed on a chain in order and what it appended is in order and continues it |
| AuditRuns.FailureLeavesUnsorted | agentcreds-core/src/audit.rs:303-335 | a later record, an earlier one and one of another correlation are an input that leaves the chain out of order |
| Compliance.BundleDigestExact | agentcreds-core/src/compliance.rs:134-180 | two bundles have one digest if and only if they agree on everything but sequence numbers, fractions of seconds and absent versus empty fields |
| Evidence.DigestOfBundle | agentcreds-core/src/compliance.rs:135-180 | the running hash absorbs exactly the specified transcript |
| Evidence.Seal | agentcreds-core/src/compliance.rs:326-350 | computes the head of the decisions and signs, or fails without a private key |
| Evidence.SealedBundleSays | agentcreds-core/src/compliance.rs:262-348 | a sealed bundle says the subject, window start, window end, checkpoint, records and custody its builder was given |
| Evidence.VerifyBundle | agentcreds-core/src/compliance.rs:189-237 | accepts if and only if issuer, signature, head and any checkpoint verify; reports as allowed and denied the numbers of records with that outcome, and the distinct signals of all records |
| Evidence.JudgedIsReported | agentcreds-core/src/adr.rs:378-523 | in the report of a bundle with the record of a failed verification a denial is counted and its signal listed, of a successful one an allow is counted |
| Evidence.AllowsAndDenies | agentcreds-core/src/compliance.rs:214-232 | the allows and the denies add up to all the records |
| Evidence.SignalsAreOfDenialsExactly | agentcreds-core/src/compliance.rs:219-226 | the signals of a bundle's report are those of its denials if and only if every signal of an allow is raised by a denial too |
| Evidence.AllowCanRaise | agentcreds-core/src/compliance.rs:219-226 | the report of a bundle of one allow that carries a signal lists it, so they are not |
| Evidence.MadeRecordsReportDenials | agentcreds-core/src/adr.rs:378-523 | for every bundle of records made by the code's own constructors the reported signals are those of the denials |
| Evidence.CustodyReproducesRoot | agentcreds-core/src/compliance.rs:314-320 | a bundle that shows what was sealed of a compositor's chain shows a chain with the root it names |
| Evidence.SealedBundleVerifies | agentcreds-core/src/compliance.rs:189-350 | a sealed bundle is accepted if and only if its embedded checkpoint, if any, verifies under the same anchor |
| Evidence.AcceptedBundleIsSealed | agentcreds-core/src/compliance.rs:182-237 | a bundle under the signature of a sealed one is accepted if and only if nothing that shows was changed and its decisions are the sealed ones in order, sequence numbers included |
| Evidence.BundleRestoresOrder | agentcreds-core/src/compliance.rs:285-305 | from the records of a stream in any order the builder restores the recorded order, for all or for one flow; with all of them its head is the stream's |
| Revocation.WithBitExact | agentcreds-core/src/revocation.rs:231-232 | writing a bit, most significant first, changes that index and no other |
| Revocation.IsRevokedExactly | agentcreds-core/src/revocation.rs:269-275 | the answer for an index is the bit of its byte counted from the most significant, and an error from the size on |
| Revocation.RunRefines | agentcreds-core/src/revocation.rs:222-275 | under any run of revoke, unrevoke and resign the bytes stand for the set of indices, padding stays clear, queries answer membership, and the bit count is the set's size |
| Revocation.CountIsCardinality | agentcreds-core/src/revocation.rs:353-356 | the number of set bits is the size of the set they stand for |
| Revocation.TokenKeepsAnswers | agentcreds-core/src/revocation.rs:152-219 | a published token parses if and only if the list is signed, and keeps every answer below the original size and the signature's verdict; the capacity rounds up to a multiple of eight with nothing revoked in between |
| Revocation.NewList | agentcreds-core/src/revocation.rs:108-125 | an empty list of the given or default size, with the given identifier, issuer, algorithm and time, that verifies under its anchor |
| Revocation.VerifiesExactly | agentcreds-core/src/revocation.rs:222-305 | over every run, failing operations included, the list verifies under an anchor if and only if the last operation that signed it was by that anchor's key and nothing the signature covers changed since |
| Revocation.SignedChangeVerifies | agentcreds-core/src/revocation.rs:414-419 | after a change by an anchor that signs the list verifies under that anchor, carries the time of the change and has the bit it wrote |
| Revocation.UnsignedChangeStands | agentcreds-core/src/revocation.rs:414-419 | a change by an anchor that cannot sign stands under the earlier signature, which then verifies only if nothing it covers changed |
| Revocation.RevocationList.RevokeAt | agentcreds-core/src/revocation.rs:222-233 | sets the bit and the time and then signs, so that on success the list verifies and the index is revoked; out of bounds changes nothing, and a failing signature leaves the bit set unsigned |
| Revocation.RevocationList.UnrevokeAt | agentcreds-core/src/revocation.rs:256-267 | clears the bit likewise, so that on success the list verifies and the index is not revoked |
| Revocation.RevocationList.ResignAt | agentcreds-core/src/revocation.rs:250-253 | advances the time and then signs, no bit changed, so that on success the list verifies |
| Pop.ChallengeDigestExact | agentcreds-core/src/pop.rs:115-141 | two challenge digests agree if and only if the challenges agree to the second and the token bindings are equal, although the binding has no length prefix |
| Pop.FreshExact | agentcreds-core/src/pop.rs:216-227 | rounding toward zero makes a challenge fresh strictly between 6 seconds before its time and `maxAge + 1` seconds after |
| Pop.PresentationExact | agentcreds-core/src/pop.rs:204-360 | a presentation with the signature a leaf made is accepted if and only if it is for that leaf's token, the nonce, audience and time issued, the bound request if one was bound, and within the window |
| ReplayGuards.InMemoryReplayGuard.RecordIfNew | agentcreds-runtime-node/index.js:313-322 | the pruning loop and the lookup compute the specified answer and memory |
| ReplayGuards.PruningNeverShows | agentcreds-runtime-node/index.js:315-317 | under a clock that does not go back, pruning never changes an answer |
| ReplayGuards.FirstCallIsNew | agentcreds-runtime-node/index.js:313-322 | a key never called before is new |
| ReplayGuards.NewAtMostOncePerLifetime | agentcreds-runtime-node/index.js:313-322 | a key that was new is not new again before its lifetime has passed |
| ReplayGuards.NewExactly | agentcreds-runtime-node/index.js:313-322 | under a clock that does not go back a key is new if and only if every earlier call that found it new is at least a lifetime old |
| A2A.A2AVerifier.Authorize | agentcreds-runtime-node/index.js:427-516 | verification, then the guard, then revocation: a refused header is not remembered, and a revoked credential has used its header up |
| A2A.AdmittedAtMostOnce | agentcreds-runtime-node/index.js:402-496 | for every maximum age, in any run under clocks that do not go back one header is admitted at most once, if the guard is always consulted within `Promptness` of the freshness check: 52.999000002 s for maximum ages of a minute or more, 112.999000002 s less the maximum age below |
| A2A.AdmittedWasVerified | agentcreds-runtime-node/index.js:427-516 | only an attempt that passed every other check within the freshness window is admitted, and a revoked credential is never allowed |
| A2A.FirstVerifiedIsAdmitted | agentcreds-runtime-node/index.js:427-516 | the first attempt of a header to verify is never called a replay, whatever unverified attempts came before |
| A2A.LaterIsTooLate | agentcreds-runtime-node/index.js:402-496 | for every non-negative maximum age and every start on the last nanosecond of a millisecond, with the guard's lifetime after it within 8 * 10^12 s of the epoch, one nanosecond later a header can be allowed twice |
| Registry.EncoderWritesMultibase | agentcreds-core/src/did.rs:150-160 | the encoder of `did.rs` meets what the next results assume of the multibase text of keys that fit in memory |
| Registry.ConfigDigestExact | agentcreds-core/src/registry.rs:391-420 | two configurations that fit in memory have one digest if and only if they agree on everything but fractions of seconds, absent versus empty endpoints and the history URL |
| Registry.KeyFromDocumentExact | agentcreds-core/src/registry.rs:197-243 | a document resolves to a key if and only if its first method is of the key's kind and spells its multibase text |
| Registry.TrustRegistry.Resolve | agentcreds-core/src/registry.rs:247-269 | a known identifier is answered from the map unchanged; otherwise the resolver's key is filed as self-asserted |
| Registry.ResolvingNeverAlters | agentcreds-core/src/registry.rs:247-269 | no run of resolutions alters an entry that is there, and what one adds is only self-asserted |
| Registry.ResolvedIsFromDocument | agentcreds-core/src/registry.rs:247-269 | over every run of resolutions what is added for an identifier has the key and the organization of a document resolved for it, is self-asserted and has neither endpoint nor history |
| Registry.MethodIsSecondPart | agentcreds-core/src/registry.rs:255-255 | the method filed is the part between the first two colons, or unknown |
| Registry.TrustRegistry.ExportValidUntil | agentcreds-core/src/registry.rs:303-323 | lists every entry of the map once, in order of identifier whatever the map's order, and signs |
| Registry.FromConfig | agentcreds-core/src/registry.rs:330-338 | succeeds if and only if the configuration verifies and is unexpired, with its entries and minimum level |
| Registry.TrustRegistry.Import | agentcreds-core/src/registry.rs:345-351 | merges a verified configuration's entries and leaves the minimum level alone |
| Registry.LastEntryCounts | agentcreds-core/src/registry.rs:192-195 | loading files the last entry given for an identifier, over any that was there, and leaves the others alone |
| Registry.ExportAscends | agentcreds-core/src/registry.rs:303-323 | an exported configuration lists the members ascending by identifier |
| Registry.ExportRoundTrip | agentcreds-core/src/registry.rs:303-338 | exporting and loading an unexpired configuration rebuilds the same map and minimum level |
| Registry.LoadedConfigIsExported | agentcreds-core/src/registry.rs:447-463 | a configuration under the signature of an exported one is loaded if and only if it is that one, up to what is not signed, and unexpired |
| Registry.LevelsAscend | agentcreds-core/src/registry.rs:25-35 | the levels ascend from unverified over self-asserted and verified to authoritative, and a level passes a minimum exactly in that order |
| Registry.TrustRegistry.VerifyCredentialRotated | agentcreds-core/src/registry.rs:508-531 | accepts if and only if the history's root is filed at the minimum level or above, the history authorizes the issuer and the credential's proof verifies under the issuer's key |
| Registry.ResolvedRootIsRefused | agentcreds-core/src/registry.rs:500-531 | over every run of resolutions from any map, a root absent from that map is not accepted under a minimum of verified or authoritative |
| Registry.AuthoritativeRootMeetsAll | agentcreds-core/src/registry.rs:500-531 | an authoritative root is accepted under every minimum whenever the history authorizes the issuer and the proof verifies |
| Intent.IntentBindingExact | agentcreds-core/src/intent.rs:186-256 | two statements have one binding if and only if they differ at most in the signature |
| Intent.EvidencePayloadExact | agentcreds-core/src/intent.rs:434-449 | two judgements have one payload if and only if they differ at most in the signature: distance and confidence cannot be adjusted or exchanged |
| Intent.Declare | agentcreds-core/src/intent.rs:210-247 | refuses an intent its own subject declares, an empty window and an anchor that cannot sign; what it returns is in force exactly within its window |
| Intent.Attest | agentcreds-core/src/intent.rs:457-507 | succeeds if and only if distance, confidence, evaluator, version and rationale are within bounds and the anchor signs |
| Intent.AttributionNames | agentcreds-core/src/intent.rs:508-512 | a verdict attributes each judgement to the evaluator, then its version behind an at sign |
| Intent.AttestedIsAcceptedExactly | agentcreds-core/src/intent.rs:641-728 | evidence under the signature of an attested judgement is accepted if and only if it is that judgement, with the statement it was made against in force for the acting agent, for that action, in time and within the distance |
| Intent.VerifyQuorum | agentcreds-core/src/intent.rs:540-621 | succeeds if and only if the quorum is at least 1, every item verifies within the bounds, evaluators are pairwise distinct and there are enough; reports the largest distance and the smallest confidence |
| Intent.QuorumIgnoresOrder | agentcreds-core/src/intent.rs:540-621 | acceptance, worst distance and weakest confidence do not depend on the order of the evidence |
| Separation.ArtifactsSeparate | agentcreds-core/src/adr.rs:66-69 | artifacts of two of the fifteen kinds that are hashed under a domain never have one hash; the genesis head is of the chain's kind, a root hash of the commitments' |
| Separation.SignatureIsForOneKind | agentcreds-core/src/rotation.rs:45-46 | a signature made for an artifact of one kind never verifies for one of another |
| Separation.RootHashSharesDomain | agentcreds-core/src/audit.rs:345-356 | the root hash of a chain is a commitment's payload if and only if the chain shows that one commitment for its correlation |
| Sorting.SortByAlikeExactly | agentcreds-core/src/approval.rs:152 | two lists sort stably to lists that are alike item by item if and only if, for everything, their items equivalent to it are alike in order |
| Sorting.SortByExact | agentcreds-core/src/approval.rs:152 | a stable sort forgets exactly the order between items that are not equivalent |

## Left out

- Binding.ProfilesAgreeExactly: takes from IEEE-754 only that converting an integer keeps its sign and does not overflow, and that a double is what its own shortest decimal converts to; rounding itself is not modelled.
- AdrStreams.ResumeAt: hexadecimal text that is not the text of a digest is refused; the code accepts any 64 hexadecimal digits as a head.
- Registry.ConfigDigestExact: about keys of fewer than 2^62 bytes, whose multibase text fits a 64-bit length; every key of the supported algorithms has 32 or 33.
- Separation.ArtifactsSeparate: about the artifacts modelled here; the domains of BBS credentials, delegation keys, principals, ownership commitments and action bindings are not compared.
- A2A.AdmittedAtMostOnce: about the default in-memory guard and one process; the clocks are assumed not to go back.
- Revocation.TokenKeepsAnswers: about lists whose capacity, rounded up, fits 64 bits.
- Approval.VerifyWithDirectory: instants outside the calendar of the date library, which the code refuses, are not modelled.
- The cryptography itself, SHA-256, DEFLATE, base64, CBOR and JSON serialization of the artifacts: ideal hashes and signatures and lossless codecs stand for them, so the errors of malformed base64 are not modelled.
- The shortest-digit algorithm behind `{:e}`: its output is the model of a double.
- Biscuit minting, attenuation and Datalog, capability credentials and their claims, action bindings: they enter as parameters.
- The integrity of a revocation token: its signing input is a record of its claims, so that a signature fixes the claims holds by construction (`Revocation.TokenIsTamperEvident`).
- `AuditLog::reveal`, an index lookup.
- `RevocationList::check_fresh` and `fingerprint`, `TrustRegistry::len` and similar queries: one-line computations.
- The argument profiles and the possession, audience and anchor checks of `authorize`: one boolean of an attempt, since they come before the replay guard and do not touch it.
- Runtimes.TextConvertedExactly: about values of Unicode scalar values whose strings `JSON.stringify` and doubles `String` write as the canonical writer does; lone surrogates are not modelled.
- The Redis replay guard, asynchronous hooks, OIDC, and the rest of the Python and Node bindings.
- Sub-second parts of instants in digests, and `key_history_url`: outside the signed artifacts.
