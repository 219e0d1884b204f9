# A verified model of the SN360 desktop agent's trust-critical core

The SN360 desktop agent receives signed jobs and policies, talks to a Wazuh manager over an encrypted
channel, and keeps a tamper-evident audit trail. This project models the parts of the agent on which that
trust rests and proves what they promise, for every input and over whole runs:

- **Canonical JSON, signed jobs and the evidence chain.** The printer is uniquely decodable and depends on
  the JSON value alone. From that follow what signatures cover, what an accepted job must look like, that
  every processed job leaves exactly one valid linked record, and that two chains with one head are equal or
  exhibit a broken digest.
- **The secure channel.** A hand-written Blowfish (any tables, any key) inverts itself up to zero padding;
  framing, counters and routing prefix are undone end to end, so that between two cipher objects every message
  arrives; which ciphertexts open to a body is stated exactly; counters never repeat within their period.
- **Civil dates.** Second counts and calendar dates correspond exactly; for every input it is stated exactly when
  the 32-bit result is right and when a build with overflow checks panics.
- **Application control.** What every reachable supervisor state keeps, the accounting of rollbacks over
  whole runs, how the two rule matchers relate, and that the Linux policy file reads back.
- **Bounded text.** Truncation keeps the longest whole-character prefix and is idempotent.

Imperative code keeps its form: the writer appends to a buffer object, the cipher overwrites its tables,
CBC works in place on an array, the chain, key ring, cipher counters, controllers and supervisor are classes
with `modifies` clauses, and each method is proved against a function on values about which the theorems are
stated.

## Assumptions

Code of other libraries appears as function-valued parameters, with only these assumptions:

- `Evidence.Faithful`: the printers of times, UUIDs and enumeration names are injective (for the agent's own
  names and UUIDs this is proved, `Evidence.DeployedFaithful`). Nothing is assumed of SHA-256.
- `SecureChannel.Sound`: zlib decompression undoes compression and a zlib stream starts with a byte of low
  nibble 8 (section 2.2 of RFC 1950); AES-CBC decryption undoes encryption and a ciphertext has at least one
  block; a hexadecimal digest is UTF-8. Nothing else is assumed of MD5.
- `ProductionHooks.Unforgeable`: a signature verifies only over the pre-image of a job that the holder of the key
  signed. Only `AcceptedWasSigned` and `WipeWasSignedTwice` assume it.
- Everywhere else Ed25519 verification is an arbitrary input, as are serde's decoding of args, the CIDR parser,
  the maintenance-window decision, the OS backend's answer, random numbers and clocks.

## Where code and documentation differ

The model follows the code.

- `docs/wire-protocols/device-control.md` says the job's signature is blanked to an empty string; the code sets
  both signature fields to empty arrays, inserting the second where serde leaves it out.
- The comment on `canonical_pre_image` says it also yields the next record's stored hash; that hash is taken
  over the record with its signature.
- Comments speak of a ten-step pipeline; there are two more gates, dual control and local keys.
- Comments in `crates/sda-comms/src/crypto.rs` speak of a zero initialisation vector; the code uses a fixed
  non-zero one.
- A comment says a subject with an unrecognised prefix is recorded verbatim in the Linux policy; the code drops
  the prefix, which merges subjects (`LinuxPolicy.MergedSubjectsDisagree`, `LinuxPolicy.PublisherIsNotTeam`).
- The date conversion is documented for any count of seconds. The result is right exactly for years that fit
  `i32` (`CivilTime.CivilCorrectExactly`). In a build with overflow checks the 32-bit addition panics exactly from
  the January of a year that is 2^31 modulo 2^32 to the end of its 400-year era (`CivilTime.ChecksPassExactly`):
  among the years that fit, from -2147483648 to February of -2147483600, where the wrapped result is right; just
  past them, from the first second of 2147483648 to February of 2147484000.

## Files

| file | content |
|---|---|
| `Wrappers`, `Lex`, `Arith`, `Decimal`, `Utf8`, `TextLines` | shared vocabulary |
| `Json`, `JsonText`, `Canonical`, `CanonicalWriter` | JSON values, printer and parser, canonical form, the writer |
| `Types`, `Hex`, `Schema`, `HashChain`, `Evidence` | wire names, hex, serde objects, hash chains, evidence records |
| `SignedJob`, `Router`, `ProductionHooks`, `JobProcessing`, `Truncation` | jobs, the pipeline, deployed hooks, processing, bounded text |
| `Feistel`, `Cbc`, `Blowfish`, `BlowfishCipher`, `Counters`, `SecureChannel`, `Wire` | the secure channel |
| `CivilTime` | dates and RFC 3339 text |
| `AppPolicy`, `PolicyTrace`, `PolicyMachine`, `Supervisor`, `LinuxPolicy` | application control |

## Model

| member | source | states |
|---|---|---|
| `Canonical.CanonicalExactly` | crates/sda-device-control/src/canonicalize.rs:47-111 | canonical bytes exist exactly for float-free values, and are the printed form of the value with all members sorted |
| `Canonical.CanonicalIffSame` | crates/sda-device-control/src/canonicalize.rs:47-93 | two float-free values have equal canonical bytes if and only if they are the same JSON value, member order at any depth aside |
| `Canonical.CanonicalDecodes` | crates/sda-device-control/src/canonicalize.rs:47-144 | a parser reads the canonical bytes back: followed by any bytes that cannot continue a number, exactly the value and those bytes are recovered |
| `Canonical.CanonicalReads` | crates/sda-device-control/src/canonicalize.rs:47-144 | the whole of the canonical bytes is read, as the same value |
| `Canonical.FirstFloatExactly` | crates/sda-device-control/src/canonicalize.rs:95-111 | an error is reported exactly for values that hold a float |
| `Canonical.FirstFloatIsFirst` | crates/sda-device-control/src/canonicalize.rs:53-111 | the float reported is the first of the scalars in left-to-right order: none before it is a float |
| `Canonical.SortedIsSame` | crates/sda-device-control/src/canonicalize.rs:70-90 | sorting changes nothing but member order, keeps well-formedness, and is idempotent |
| `Canonical.CanonicalIsUtf8` | crates/sda-device-control/src/canonicalize.rs:47-51 | canonical bytes are valid UTF-8, so the conversion to a string in the router never fails |
| `Canonical.SortedLength` | crates/sda-device-control/src/canonicalize.rs:70-90 | sorting does not change the printed length |
| `Json.SortedUnique` | crates/sda-device-control/src/canonicalize.rs:77-78 | a set of members has one arrangement in key order: the sort leaves no choice |
| `Json.SameSorts` | crates/sda-device-control/src/canonicalize.rs:70-90 | values that differ in member order only have the same sorted form, at every depth |
| `Json.RearrangedIsSame` | crates/sda-device-control/src/canonicalize.rs:77-78 | any rearrangement of an object's members is the same value, so insertion order never shows in the bytes |
| `Utf8.KeyOrderTotal` | crates/sda-device-control/src/canonicalize.rs:146-150 | UTF-16 comparison orders any two different keys one way and never both |
| `Utf8.KeyOrderTransitive` | crates/sda-device-control/src/canonicalize.rs:146-150 | UTF-16 comparison is transitive |
| `Utf8.Utf16Injective` | crates/sda-device-control/src/canonicalize.rs:146-150 | strings with equal UTF-16 code units are equal, surrogate pairs included |
| `Utf8.Utf16Exactly` | crates/sda-device-control/src/canonicalize.rs:146-150 | one code unit up to U+FFFF; above, a high and a low surrogate that together hold the code point |
| `Utf8.SupplementaryFirst` | crates/sda-device-control/src/canonicalize.rs:146-150 | where the order differs from that of code points: a key starting with a supplementary character comes before one starting with U+E000 to U+FFFF |
| `JsonText.ValueRoundTrip` | crates/sda-device-control/src/canonicalize.rs:53-144 | unique decodability of the printer, for every float-free value of any depth and any admissible continuation |
| `JsonText.StringRoundTrip` | crates/sda-device-control/src/canonicalize.rs:121-144 | an escaped string is read back up to its own closing quote, whatever follows |
| `JsonText.EscapeIsShortest` | crates/sda-device-control/src/canonicalize.rs:121-144 | of all spellings of a character that JSON allows and a reader takes for it, the one written is the shortest, and the only one of that length with lowercase digits (section 3.2.2.2 of RFC 8785) |
| `JsonText.EscapeHasNoControl` | crates/sda-device-control/src/canonicalize.rs:121-144 | what is written holds no control character and no uppercase digit in an escape |
| `JsonText.EscapeTable` | crates/sda-device-control/src/canonicalize.rs:125-131 | the seven escapes with a letter of their own, spelled out |
| `JsonText.Spelling` | crates/sda-device-control/src/canonicalize.rs:53-93 | the words and marks that printer and parser share are those of JSON |
| `JsonText.IntegerRoundTrip` | crates/sda-device-control/src/canonicalize.rs:95-119 | a printed integer is read back, whatever follows that cannot continue it |
| `CanonicalWriter.WriteString` | crates/sda-device-control/src/canonicalize.rs:121-144 | the escaping loop appends exactly the string literal whose characters `JsonText.EscapeIsShortest` fixes |
| `CanonicalWriter.WriteNumber` | crates/sda-device-control/src/canonicalize.rs:95-111 | integers are appended in decimal; a float is an error, which names NaN or infinity apart, and appends nothing |
| `CanonicalWriter.SortKeys` | crates/sda-device-control/src/canonicalize.rs:77-78 | the key vector comes out in UTF-16 order with the same keys |
| `CanonicalWriter.WriteValue` | crates/sda-device-control/src/canonicalize.rs:53-93 | the recursive writer appends the canonical bytes of the value, or returns the error of the first float in output order |
| `CanonicalWriter.CanonicalizeValue` | crates/sda-device-control/src/canonicalize.rs:47-51 | the buffer-filling entry point computes the canonical form |
| `Types.ActionNameInjective` | crates/sda-device-control/src/types.rs:116-142 | no two action kinds share a wire name |
| `Types.ActionTagIs` | crates/sda-device-control/src/types.rs:116-142 | first letter, last letter and length of every action's wire name |
| `Types.RefusedNameInjective` | crates/sda-device-control/src/router.rs:711-729 | no two refusal reasons share a spelling |
| `Types.RefusedTagIs` | crates/sda-device-control/src/router.rs:711-729 | first letter, last letter and length of every refusal's spelling |
| `Hex.Serialize` | crates/sda-device-control/src/evidence.rs:275-284 | the loop writes two lowercase digits per byte |
| `Hex.Deserialize` | crates/sda-device-control/src/evidence.rs:286-318 | a digest is read exactly from 64 hexadecimal digits of either case; any other length, and otherwise the first character that is no digit, is reported |
| `Hex.NibbleExactly` | crates/sda-device-control/src/evidence.rs:286-318 | a digit of either case, and nothing else, is read as its value |
| `Hex.HexRoundTrip` | crates/sda-device-control/src/evidence.rs:275-318 | reading written bytes yields those bytes and no others |
| `Hex.UuidTextInjective` | crates/sda-device-control/src/evidence.rs:23-30 | the hyphenated text of a UUID determines it |
| `Hex.UuidTextShape` | crates/sda-device-control/src/evidence.rs:23-30 | the 32 lowercase digits in order, cut 8-4-4-4-12 by hyphens |
| `Evidence.RecordHashes` | crates/sda-device-control/src/evidence.rs:117-122 | a record always has canonical bytes and a chain hash |
| `Evidence.RecordBytesInjective` | crates/sda-device-control/src/evidence.rs:117-122 | the canonical bytes that are hashed determine the whole record |
| `Evidence.RecordReads` | crates/sda-device-control/src/evidence.rs:117-122 | a parser finds in the hashed bytes every field of the record under its wire name, absent options absent |
| `Evidence.RecordPreImageReads` | crates/sda-device-control/src/evidence.rs:98-112 | and in the signed bytes the same, with an empty string for the signature |
| `Evidence.PlatformRead` | crates/sda-device-control/src/types.rs:49-70 | the nested platform object, field by field |
| `Evidence.AgentRead` | crates/sda-device-control/src/types.rs:49-70 | the nested agent object, field by field |
| `Evidence.CheckRecordExactly` | crates/sda-device-control/src/evidence.rs:77-96 | a record is valid exactly if it has version 1, ordered times and a reason just when refused |
| `Evidence.PreImageIffContent` | crates/sda-device-control/src/evidence.rs:98-112 | two records have the same signing pre-image if and only if they agree on every field but the signature |
| `Evidence.TamperEvidence` | crates/sda-device-control/src/evidence.rs:160-200 | two linked chains from one start with one head are equal record for record, or the lemma returns two records with different bytes and one digest, or a record that hashes to the start |
| `Evidence.DeployedFaithful` | crates/sda-device-control/src/types.rs:29-195 | the names and texts the agent prints are injective, given an injective time printer |
| `HashChain.Compare` | crates/sda-device-control/src/evidence.rs:160-200 | the same dichotomy for any injective encoding and any hash, computed by walking both chains back |
| `HashChain.ProducedIsLinked` | crates/sda-device-control/src/evidence.rs:182-195 | records made one after the other from the current head form a linked chain |
| `JobProcessing.EvidenceChain.constructor` | crates/sda-device-control/src/evidence.rs:168-172 | a new chain expects the all-zero sentinel |
| `JobProcessing.EvidenceChain.WithLast` | crates/sda-device-control/src/evidence.rs:176-180 | a resumed chain expects the stored head |
| `JobProcessing.EvidenceChain.Append` | crates/sda-device-control/src/evidence.rs:190-194 | the record's digest becomes the head; a record without a hash would leave the chain as it was |
| `JobProcessing.BuildSucceeds` | crates/sda-device-control/src/evidence.rs:227-262 | for every result with ordered times and a reason exactly when refused, the built record is valid, repeats every field of job, result and context, stores the head and the digest of the output, and carries the signature of its own content |
| `SignedJob.PreImageExactly` | crates/sda-device-control/src/router.rs:193-205 | a job has a signing pre-image exactly when its args are float-free; otherwise verification reports a bad signature |
| `SignedJob.PreImageIffSameJob` | crates/sda-device-control/src/router.rs:193-205 | two float-free jobs have the same signing pre-image if and only if they agree on everything but the two signature fields |
| `SignedJob.PreImageReads` | crates/sda-device-control/src/router.rs:193-205 | a parser finds in the pre-image every field of the job under its wire name, both signature fields as empty arrays, absent options absent |
| `SignedJob.PreImageIgnoresSignatures` | crates/sda-device-control/src/router.rs:193-205 | the pre-image never depends on the signatures, present, absent or in any order |
| `SignedJob.AllBlanked` | crates/sda-device-control/src/router.rs:193-203 | blanking yields the same members whether or not serde left the list of additional signatures out |
| `SignedJob.ParseArgs` | crates/sda-device-control/src/signed_job.rs:373-532 | args are accepted exactly when they decode and respect the caps of their action; a lock message comes back cut to fit, all else as decoded |
| `SignedJob.ParsedExactly` | crates/sda-device-control/src/signed_job.rs:373-532 | args are accepted exactly when they decode and keep the limits: 480 and 240 minutes, 1800 and 3600 seconds, 10000 rows, 64 lowercase digits, wording not blank, a known reboot policy, address ranges |
| `Router.ValidateJob` | crates/sda-device-control/src/router.rs:290-432 | the early-return pipeline, with its approver vector, computes the ordered list of checks |
| `Router.AcceptedExactly` | crates/sda-device-control/src/router.rs:290-432 | a job is accepted exactly when version, size and window order, signature, clock with a minute of skew, tenant, device, permission, maintenance window, args, double approval of a wipe and the limits of a local key are all in order, and its parsed args are returned |
| `Router.VerdictExactly` | crates/sda-device-control/src/router.rs:290-432 | every verdict, gate by gate: the first gate that is shut names the reason |
| `Router.StructureExactly` | crates/sda-device-control/src/signed_job.rs:91-114 | the structural check passes exactly for version 1, at most 65536 bytes of compact args and an ordered window; any violation is refused as a schema error |
| `Router.DualControlExactly` | crates/sda-device-control/src/router.rs:384-408 | dual control holds exactly for two or more keys, all additional signatures verified, all keys of registered and pairwise different approvers |
| `Router.PassesDualControl` | crates/sda-device-control/src/router.rs:384-408 | the loop that fills, sorts and dedups approvers accepts exactly the lists of verified signatures by pairwise distinct registered approvers |
| `Router.AllDistinct` | crates/sda-device-control/src/router.rs:402-407 | sorting and dropping equal neighbours keeps the length exactly when no approver appears twice |
| `Router.SortUuids` | crates/sda-device-control/src/router.rs:402-407 | the approvers come out in ascending order, none lost or added |
| `Router.Dedup` | crates/sda-device-control/src/router.rs:402-407 | of every run of equal neighbours one is kept, in order, and nothing else is dropped |
| `Router.WipeNeedsTwoApprovers` | crates/sda-device-control/src/router.rs:384-408 | an accepted wipe has at least two signatures, all of them verified, by pairwise distinct approvers under pairwise distinct keys |
| `Router.LocalKeyOnlyFixesPosture` | crates/sda-device-control/src/router.rs:419-429 | a job accepted under a local key is one of the three posture fixes and answers no recommendation |
| `Router.DualControlRearranged` | crates/sda-device-control/src/router.rs:384-408 | rearranging the additional signatures does not affect dual control |
| `ProductionHooks.OrderOfSignaturesIrrelevant` | crates/sda-device-control/src/router.rs:208-269 | under the deployed hooks, permuting the additional signatures of any job never changes the verdict |
| `ProductionHooks.AcceptedIsFloatFree` | crates/sda-device-control/src/router.rs:193-223 | whatever a deployed agent accepts has float-free args |
| `ProductionHooks.DeployedExactly` | crates/sda-device-control/src/router.rs:193-269 | a deployed agent accepts a job exactly if it passes every gate, told by its key ring: a known key's 64-byte signature over the pre-image, permitted action, approvers, local keys |
| `ProductionHooks.VerifyOneExactly` | crates/sda-device-control/src/router.rs:208-240 | a signature is refused as an unknown key or as bad, or accepted exactly if the known key verifies it |
| `ProductionHooks.AcceptedWasSigned` | crates/sda-device-control/src/router.rs:193-223 | if signatures cannot be forged, whatever a deployed agent accepts agrees, outside the signature fields, with a job that the holder of a known key signed |
| `ProductionHooks.WipeWasSignedTwice` | crates/sda-device-control/src/router.rs:193-269 | and the content of an accepted wipe was signed under two or more known keys of pairwise different registered approvers |
| `ProductionHooks.LocalKeysOnlyRestrict` | crates/sda-device-control/src/router.rs:167-169 | declaring a key local never lets through a job that was refused before, and changes no accepted job's args |
| `ProductionHooks.Keyring.constructor` | crates/sda-device-control/src/router.rs:146-153 | a key ring starts with its keys and no restriction, local key or approver |
| `ProductionHooks.Keyring.RestrictActions` | crates/sda-device-control/src/router.rs:157-163 | only the permitted actions change |
| `ProductionHooks.Keyring.RegisterLocalEphemeralKey` | crates/sda-device-control/src/router.rs:167-169 | only the local keys change |
| `ProductionHooks.Keyring.UpsertKey` | crates/sda-device-control/src/router.rs:173-175 | only this key's entry changes |
| `ProductionHooks.Keyring.RegisterApprover` | crates/sda-device-control/src/router.rs:180-182 | only this key's approver changes |
| `JobProcessing.ResultIsValid` | crates/sda-device-control/src/router.rs:592-707 | the skipped, deferred and refused results all pass their own validation and can be recorded |
| `JobProcessing.ProcessJob` | crates/sda-device-control/src/router.rs:471-513 | one record is built from the head and appended; no `expect` can fire, floats in the args included |
| `JobProcessing.ProcessJobWithWindowPolicy` | crates/sda-device-control/src/router.rs:541-586 | the same with the window policy's decision in front: deferred and refused jobs leave records too |
| `JobProcessing.HandledAccounts` | crates/sda-device-control/src/router.rs:471-513 | result and record share the evidence id, and the record stores the head it found |
| `JobProcessing.HandledExactly` | crates/sda-device-control/src/router.rs:471-586 | result and record alike: refused exactly if the window policy or the validation refuses, with that reason, and otherwise skipped; under the job's ids, action and args, at the time of the call, on the head found |
| `JobProcessing.OutputExactly` | crates/sda-device-control/src/router.rs:592-707 | the text of a result says what was decided, cut to the limit of outputs |
| `JobProcessing.SignatureExactly` | crates/sda-device-control/src/evidence.rs:227-262 | a record's signature is the digest of its own pre-image, twice, under the stub key id |
| `JobProcessing.CheckResultExactly` | crates/sda-device-control/src/action_result.rs:58-90 | a result is valid exactly if it has version 1, ordered times, a reason and no duration just when refused, and at most 65536 bytes of output |
| `JobProcessing.RunIsChained` | crates/sda-device-control/src/router.rs:471-586 | every run of calls from any head leaves exactly one valid, self-signed record per call, each linked to its predecessor |
| `JobProcessing.ProcessAll` | crates/sda-device-control/src/router.rs:471-586 | jobs worked off one after the other on a chain object return the outcomes of the run, leave its trail of records and move the chain to the trail's head |
| `JobProcessing.RunsAreTamperEvident` | crates/sda-device-control/src/router.rs:464-513 | two runs that reach one head left the same trail and had the same length, or exhibit a broken digest |
| `JobProcessing.ArgsTextExactly` | crates/sda-device-control/src/router.rs:486-489 | the stored args are the canonical text exactly for float-free args, the compact text otherwise |
| `JobProcessing.ArgsReadBack` | crates/sda-device-control/src/router.rs:486-489 | canonical args can be read back from a record |
| `JobProcessing.AcceptedArgsAreCanonical` | crates/sda-device-control/src/router.rs:471-513 | the record of a job accepted under the deployed hooks holds the canonical text of its args, never the fallback form |
| `Truncation.WalkBack` | crates/sda-device-control/src/action_result.rs:103-111 | the backward walk ends on a character boundary after at most three steps, at the longest whole-character prefix that fits |
| `Truncation.BoundOutput` | crates/sda-device-control/src/action_result.rs:99-116 | long output becomes that prefix and the marker, losing at most three bytes of the limit |
| `Truncation.BoundedExactly` | crates/sda-device-control/src/action_result.rs:92-116 | output up to 65536 bytes stays; longer output is the marker and the longest prefix of at most 65483 bytes |
| `Truncation.BoundedIsStable` | crates/sda-device-control/src/action_result.rs:92-116 | bounded output is valid UTF-8 within 64 KiB, is flagged exactly when changed, and bounding it again changes nothing |
| `Truncation.TruncateLockMessage` | crates/sda-device-control/src/signed_job.rs:457-472 | a lock message becomes the longest whole-character prefix within 240 bytes |
| `Truncation.CutIsIdempotent` | crates/sda-device-control/src/signed_job.rs:457-472 | cutting is idempotent and keeps the string valid |
| `Truncation.FittingIsLongest` | crates/sda-device-control/src/action_result.rs:103-111 | the prefix kept is the longest: every prefix that fits is no longer, every longer one does not fit |
| `Truncation.FittingIsTight` | crates/sda-device-control/src/action_result.rs:103-111 | at most three bytes of the limit stay unused |
| `CivilTime.CivilCorrectExactly` | crates/sda-core/src/time.rs:32-53 | the result is a calendar date and time with the given second count exactly for the inputs whose year fits `i32` |
| `CivilTime.CivilRoundTrip` | crates/sda-core/src/time.rs:32-53 | every calendar date and time with a 32-bit year comes back from its second count |
| `CivilTime.DateOfSecond` | crates/sda-core/src/time.rs:32-53 | a date and time is the result for its own second count and for no other |
| `CivilTime.EpochIs1970` | crates/sda-core/src/time.rs:26-53 | second 0 is midnight of the first of January 1970, in the reference calendar and in the result |
| `CivilTime.CivilMonotone` | crates/sda-core/src/time.rs:32-53 | the conversion is strictly monotone in lexicographic order |
| `CivilTime.DayByDay` | crates/sda-core/src/time.rs:32-53 | 86400 seconds later is the calendar's next date at the same time of day |
| `CivilTime.ChecksPassExactly` | crates/sda-core/src/time.rs:32-53 | for every input no unsigned subtraction underflows, and a checked build panics exactly from the first of January of a year that is 2^31 modulo 2^32 up to the end of February that closes the 400-year era of that day |
| `CivilTime.ChecksPassWithinYears` | crates/sda-core/src/time.rs:32-53 | among the years that fit `i32`, a checked build panics exactly from -2147483648 to February of -2147483600 |
| `CivilTime.TrueCivilInverts` | crates/sda-core/src/time.rs:32-53 | before the year is cut to 32 bits the date inverts the reference day count for every input, negative ones included |
| `CivilTime.OnlyYearWraps` | crates/sda-core/src/time.rs:32-53 | the fixed-width steps lose nothing but the high bits of the year |
| `CivilTime.SecondsTextSorts` | crates/sda-core/src/time.rs:58-62 | for 1970 to 9999 the text has 20 characters and sorts like the times, as section 5.1 of RFC 3339 asks |
| `CivilTime.MillisTextSorts` | crates/sda-core/src/time.rs:67-72 | with milliseconds the text has 24 characters and sorts at millisecond resolution |
| `CivilTime.SecondsTextReads` | crates/sda-core/src/time.rs:58-62 | `YYYY-MM-DDTHH:MM:SSZ`: which field stands where, with which mark behind it |
| `CivilTime.MillisTextReads` | crates/sda-core/src/time.rs:67-72 | `YYYY-MM-DDTHH:MM:SS.mmmZ`: the same with milliseconds |
| `CivilTime.TimeSplits` | crates/sda-core/src/time.rs:58-72 | seconds and milliseconds are those of the time; a time before the epoch counts as the epoch |
| `CivilTime.WidthExactly` | crates/sda-core/src/time.rs:58-62 | for every time the text has 20 characters exactly if the year printed, after wrapping, is between -999 and 9999 |
| `CivilTime.WidthWithinYears` | crates/sda-core/src/time.rs:58-62 | up to the end of the 32-bit years it has 20 characters exactly up to the end of 9999, times before the epoch included |
| `Feistel.ReversedInverts` | crates/sda-comms/src/blowfish_wazuh.rs:61-91 | running the network with the keys reversed inverts it, for any number of rounds, any keys and any round function |
| `Feistel.CryptTrace` | crates/sda-comms/src/blowfish_wazuh.rs:61-74 | the halves a block passes through, round by round, and the last two keys put on crosswise |
| `Feistel.RunForward` | crates/sda-comms/src/blowfish_wazuh.rs:61-74 | the encryption loop with its swaps computes the network |
| `Feistel.RunBackward` | crates/sda-comms/src/blowfish_wazuh.rs:77-90 | the decryption loop computes the network with the keys reversed |
| `Blowfish.PairRoundTrip` | crates/sda-comms/src/blowfish_wazuh.rs:61-101 | for every table content, decryption inverts encryption and encryption inverts decryption |
| `Blowfish.SubstituteUndone` | crates/sda-comms/src/blowfish_wazuh.rs:94-101 | the round function: each byte of the word looks up its own box, and taking off the words of the last three boxes leaves that of the first |
| `Blowfish.BlockRoundTrip` | crates/sda-comms/src/blowfish_wazuh.rs:103-118 | both hold for 8-byte blocks, byte order included |
| `Blowfish.CbcRoundTrip` | crates/sda-comms/src/blowfish_wazuh.rs:129-169 | decrypting an encrypted message of any length gives the message zero-padded to a multiple of 8 |
| `Blowfish.CbcOnto` | crates/sda-comms/src/blowfish_wazuh.rs:129-169 | every whole number of blocks is the ciphertext of what it decrypts to |
| `Cbc.DecryptsEncrypted` | crates/sda-comms/src/blowfish_wazuh.rs:129-169 | chaining is undone for any block permutation and any initialisation vector |
| `Cbc.CipherBlock` | crates/sda-comms/src/blowfish_wazuh.rs:120-145 | every ciphertext block is the encryption of the zero-padded plaintext block combined with the ciphertext block before, the first with FEDCBA9876543210 |
| `Cbc.EncryptsDecrypted` | crates/sda-comms/src/blowfish_wazuh.rs:129-169 | and the other way round |
| `BlowfishCipher.EncryptBuffer` | crates/sda-comms/src/blowfish_wazuh.rs:134-143 | the in-place loop leaves the chained encryption of what the buffer held |
| `BlowfishCipher.DecryptBuffer` | crates/sda-comms/src/blowfish_wazuh.rs:155-168 | the in-place loop leaves the chained decryption of what the buffer held |
| `BlowfishCipher.Cipher.constructor` | crates/sda-comms/src/blowfish_wazuh.rs:16-57 | the tables are those of the key schedule, whatever the initial tables |
| `BlowfishCipher.Cipher.MixKey` | crates/sda-comms/src/blowfish_wazuh.rs:28-36 | subkey i is its initial value combined by exclusive or with bytes 4i to 4i + 3 of the repeated key, read big-endian |
| `BlowfishCipher.KeyWord` | crates/sda-comms/src/blowfish_wazuh.rs:29-34 | four key bytes shifted in one by one are the big-endian word of the repeated key |
| `BlowfishCipher.Cipher.Expand` | crates/sda-comms/src/blowfish_wazuh.rs:38-54 | 521 successive encryptions overwrite subkeys and boxes in order |
| `BlowfishCipher.ScheduledBlock` | crates/sda-comms/src/blowfish_wazuh.rs:16-57 | the finished tables told without the loops: the key is mixed in byte by byte, then each of 521 blocks is the encryption of the one before under the tables overwritten so far |
| `BlowfishCipher.BlockReads` | crates/sda-comms/src/blowfish_wazuh.rs:103-118 | a block is its left half, then its right half, most significant byte first |
| `BlowfishCipher.RepeatedKey` | crates/sda-comms/src/blowfish_wazuh.rs:28-36 | a key written twice gives the same cipher |
| `BlowfishCipher.Cipher.EncryptPair` | crates/sda-comms/src/blowfish_wazuh.rs:61-74 | the method computes the pair encryption of the current tables |
| `BlowfishCipher.Cipher.DecryptPair` | crates/sda-comms/src/blowfish_wazuh.rs:77-90 | the method computes the pair decryption of the current tables |
| `BlowfishCipher.Cipher.EncryptBlock` | crates/sda-comms/src/blowfish_wazuh.rs:103-109 | one block of the buffer is replaced by its encryption, the rest and the tables stay |
| `BlowfishCipher.Cipher.DecryptBlock` | crates/sda-comms/src/blowfish_wazuh.rs:112-118 | one block of the buffer is replaced by its decryption, the rest and the tables stay |
| `BlowfishCipher.CbcEncrypt` | crates/sda-comms/src/blowfish_wazuh.rs:129-145 | the method computes zero-padded CBC encryption |
| `BlowfishCipher.CbcDecrypt` | crates/sda-comms/src/blowfish_wazuh.rs:150-169 | the method computes CBC decryption; empty or ragged input gives nothing |
| `Counters.ClosedForm` | crates/sda-comms/src/crypto.rs:212-222 | frame `n` carries `n` div 9997 and `n` mod 9997 for every `n`, the former modulo 2^32 |
| `Counters.StrictlyIncreasing` | crates/sda-comms/src/crypto.rs:212-222 | over the first 9997 * 2^32 frames the counter pairs strictly increase |
| `Counters.RepeatExactly` | crates/sda-comms/src/crypto.rs:212-222 | two frames carry the same pair exactly when they are a whole number of periods apart |
| `Counters.ChecksPassExactly` | crates/sda-comms/src/crypto.rs:212-222 | the 32-bit additions overflow, and a checked build panics, exactly on the frame that completes a period |
| `Counters.HeaderShape` | crates/sda-comms/src/crypto.rs:224-228 | the header is always 21 bytes with colons at offsets 15 and 20 |
| `Counters.HeaderInjective` | crates/sda-comms/src/crypto.rs:224-228 | random number and counters can be read back from the header |
| `Counters.HeaderReads` | crates/sda-comms/src/crypto.rs:224-228 | a reader finds the random number in the first five places, then the global counter in ten and the local one in four |
| `SecureChannel.EncryptionKey` | crates/sda-comms/src/crypto.rs:92-104 | the derived key is the digest of the shared key, which is the AES key, and the first 15 bytes of the digest of the digests of name and id |
| `SecureChannel.KeysExactly` | crates/sda-comms/src/crypto.rs:92-126 | the AES key is the front of the encryption key, and Blowfish is keyed with the whole of it |
| `SecureChannel.Padding` | crates/sda-comms/src/crypto.rs:153-170 | one to eight `!` bring the compressed frame to a multiple of 8 |
| `SecureChannel.NoZeroPadding` | crates/sda-comms/src/crypto.rs:153-178 | so the Blowfish layer adds no zero bytes |
| `SecureChannel.UnwrapFramed` | crates/sda-comms/src/crypto.rs:231-281 | unwrapping a framed body gives the body: no compressed stream can be taken for padding |
| `SecureChannel.SealRoundTrip` | crates/sda-comms/src/crypto.rs:135-281 | a sealed body opens to itself, for both methods and every body, the empty one included |
| `SecureChannel.UnwrapExactly` | crates/sda-comms/src/crypto.rs:190-317 | decrypted bytes give a body exactly if they are marks and a compressed frame of it, or a null-padded old-format frame of it, with matching checksum |
| `SecureChannel.BlowfishOpensExactly` | crates/sda-comms/src/crypto.rs:190-317 | any Blowfish ciphertext opens to a body exactly if it is the encryption of whole blocks that frame the body |
| `SecureChannel.AesOpensExactly` | crates/sda-comms/src/crypto.rs:190-317 | any AES ciphertext opens to a body exactly if it decrypts, under the vector in front of it, to a frame of the body |
| `SecureChannel.EmptyExactly` | crates/sda-comms/src/crypto.rs:190-210 | a ciphertext carries nothing exactly if it is empty or ragged under Blowfish, or an encryption of nothing under AES |
| `SecureChannel.OldFormatExactly` | crates/sda-comms/src/crypto.rs:283-317 | an old-format frame with any zero padding opens to its body exactly when the body does not end in a null |
| `SecureChannel.StripTrailingNulls` | crates/sda-comms/src/crypto.rs:400-403 | what is stripped is a suffix of nulls and all of it |
| `Wire.PrefixStrippedExactly` | crates/sda-comms/src/connection.rs:26-45 | the receiver finds the ciphertext exactly when the agent id has no `!` |
| `Wire.TokenStripped` | crates/sda-comms/src/connection.rs:26-45 | frames without an id lose just their method token |
| `Wire.FrameSpelled` | crates/sda-comms/src/connection.rs:299-328 | a frame is `!`, the id, `!`, `#AES:` or `:` and the ciphertext |
| `Wire.PrefixlessStays` | crates/sda-comms/src/connection.rs:26-45 | a frame without prefix and token, or whose id never ends, is left as it is |
| `Wire.ReceivedExactly` | crates/sda-comms/src/connection.rs:50-85 | a received frame is no message exactly if it carries nothing behind its prefix; every other failure is an error, and a body is a message |
| `Wire.EndToEnd` | crates/sda-comms/src/connection.rs:50-85 | a frame sent under an id without `!` is received as exactly the original body, for both methods |
| `Wire.ServerToAgent` | crates/sda-comms/src/connection.rs:26-85 | a server's frame, which has no id, is received as exactly its body |
| `Wire.Conversation` | crates/sda-comms/src/connection.rs:299-328 | frame `n` of any conversation opens to its body, and no two frames within the period share a header |
| `Wire.FrameOpens` | crates/sda-comms/src/connection.rs:50-85 | frame `n` opens to its body however long the conversation |
| `Wire.ReceiveFrame` | crates/sda-comms/src/connection.rs:50-85 | a cipher object strips and opens a frame as the function does; an empty payload is no message, and without a cipher a frame is taken as it is |
| `Wire.Converse` | crates/sda-comms/src/connection.rs:50-85 | between two cipher objects with the same keys every message of any conversation arrives, in order and unchanged |
| `Wire.WazuhCipher.constructor` | crates/sda-comms/src/crypto.rs:92-126 | both ends that know id, name and key derive the same keys; counters start at zero |
| `Wire.WazuhCipher.BuildInnerFrame` | crates/sda-comms/src/crypto.rs:212-229 | the counters advance by one step and are printed in front of the message |
| `Wire.WazuhCipher.PadFrame` | crates/sda-comms/src/crypto.rs:138-172 | checksum, compression and padding give the framed form |
| `Wire.WazuhCipher.Encrypt` | crates/sda-comms/src/crypto.rs:135-187 | the result is the sealed frame under the new counters; keys do not change |
| `Wire.WazuhCipher.DecryptCompressed` | crates/sda-comms/src/crypto.rs:231-281 | the scan over `!` and the checks compute the compressed-format reader |
| `Wire.WazuhCipher.Decrypt` | crates/sda-comms/src/crypto.rs:190-210 | the method computes the opening function, errors included |
| `Wire.WazuhCipher.BuildWireFrame` | crates/sda-comms/src/connection.rs:299-328 | a cipher that has sent `n` messages builds frame `n + 1` of its conversation |
| `AppPolicy.VerifySignedPolicy` | crates/sda-app-control/src/policy.rs:65-98 | the checks and the loop over seen hashes compute the verification function |
| `AppPolicy.VerifiedExactly` | crates/sda-app-control/src/policy.rs:65-98 | a bundle verifies exactly when its key equals the trusted one character by character, ASCII letters up to case, the signature checks out, the version is above the floor and no two rules hash alike |
| `AppPolicy.RefusedExactly` | crates/sda-app-control/src/policy.rs:65-98 | every refusal names the first rule broken: key, signature and payload, version, first repeated rule |
| `AppPolicy.EqIgnoreCaseExactly` | crates/sda-app-control/src/policy.rs:70-75 | keys agree exactly if they have one length and every character is equal or the same ASCII letter in the other case |
| `AppPolicy.ParseModeExactly` | crates/sda-app-control/src/module.rs:272-280 | only the words monitor and enforce, in any case and between white space, switch a mode on; all else disables |
| `PolicyMachine.FailureChangesNothing` | crates/sda-app-control/src/enforce.rs:114-133 | a failed apply or rollback leaves everything as it was |
| `PolicyMachine.AppliedExactly` | crates/sda-app-control/src/module.rs:181-218 | a bundle is applied exactly if it is trusted, above the floor, free of repeated rules, meant for the configured mode and not refused by the backend, and then policy, backend, floor and log are those of the bundle |
| `PolicyMachine.ApplyRefusedExactly` | crates/sda-app-control/src/module.rs:181-218 | a refusal names, in this order, the missing key, the failed verification, the mode or the backend |
| `PolicyMachine.EveryRun` | crates/sda-app-control/src/module.rs:181-254 | in every reachable state signed and verified bundles are both present and correspond or both absent, the last version is the current one's, the backend holds the current bundle or what it held before there was one, a snapshot has a smaller version, and every logged decision is the one the policy in force takes; every run's outcomes are legal and account for versions and log |
| `PolicyMachine.RollbackAccounting` | crates/sda-app-control/src/enforce.rs:118-162 | over every run successful rollbacks are fewer than successful applies, and two of them have an apply between them |
| `PolicyMachine.RunVersions` | crates/sda-app-control/src/module.rs:190-228 | with no rollback in between versions strictly increase, a rollback takes the floor back to the version before the apply it undoes, and the low-water mark, what a rollback would restore or else the floor, never falls and never exceeds the floor |
| `PolicyMachine.RollbackUndoesApplied` | crates/sda-app-control/src/enforce.rs:118-162 | rolling back right after an apply restores bundle, backend and floor exactly if this supervisor applied what was displaced and the backend takes it back; otherwise it fails, with the reason, and changes nothing |
| `PolicyTrace.RollbackUndoesApply` | crates/sda-app-control/src/enforce.rs:140-162 | a successful rollback undoes the last success before it, which was an apply of a higher version |
| `PolicyTrace.RollbacksBehindApplies` | crates/sda-app-control/src/enforce.rs:128-161 | rollbacks stay behind applies, by two while another rollback is possible |
| `PolicyTrace.VersionsIncrease` | crates/sda-app-control/src/policy.rs:77-84 | an applied version is above every version applied or restored since the last rollback |
| `PolicyTrace.LowNeverFalls` | crates/sda-app-control/src/enforce.rs:118-162 | nothing that follows takes the floor below an earlier low-water mark |
| `PolicyTrace.LogSinceApply` | crates/sda-app-control/src/monitor.rs:48-84 | the log holds exactly the decisions since the last apply, in order |
| `Supervisor.EnforceController.Apply` | crates/sda-app-control/src/enforce.rs:118-138 | on acceptance the displaced bundle becomes the snapshot; on refusal nothing changes |
| `Supervisor.EnforceController.Rollback` | crates/sda-app-control/src/enforce.rs:145-162 | the snapshot is pushed again, becomes current and is consumed; errors change nothing |
| `Supervisor.EnforceController.constructor` | crates/sda-app-control/src/enforce.rs:84-91 | a new controller holds no bundle and no snapshot |
| `Supervisor.Provider.ApplyPolicy` | crates/sda-pal/src/app_control.rs:176-179 | a bundle is verified again, then installed exactly, or nothing changes |
| `Supervisor.AppControlSupervisor.constructor` | crates/sda-app-control/src/module.rs:153-173 | one controller is built, the one the configured mode calls for, over a backend that may already hold a policy |
| `Supervisor.AppControlSupervisor.ApplyPolicy` | crates/sda-app-control/src/module.rs:181-218 | the method takes the state machine's apply step, results and errors included |
| `Supervisor.AppControlSupervisor.Rollback` | crates/sda-app-control/src/module.rs:222-237 | the method takes the state machine's rollback step |
| `Supervisor.AppControlSupervisor.Observe` | crates/sda-app-control/src/module.rs:240-254 | the method takes the state machine's observe step: only a monitor decides, and it logs the decision |
| `Supervisor.AppControlSupervisor.Execute` | crates/sda-app-control/src/module.rs:321-337 | one turn of the command loop is one step of the state machine |
| `Supervisor.AppControlSupervisor.Serve` | crates/sda-app-control/src/module.rs:311-340 | serving any sequence of commands is a run of the state machine, from whatever state the supervisor is in |
| `Supervisor.MonitorController.InstallPolicy` | crates/sda-app-control/src/monitor.rs:48-51 | the policy is replaced and the log cleared |
| `Supervisor.MonitorController.Observe` | crates/sda-app-control/src/monitor.rs:65-84 | the loop takes the first matching rule's decision and appends it to the log |
| `AppPolicy.DecisionNamesItsRule` | crates/sda-app-control/src/monitor.rs:65-84 | under a verified policy a decision carries verdict and hash of the first rule for that subject, and there is none exactly when no rule names it |
| `LinuxPolicy.LinuxIsCoarser` | crates/sda-app-control/src/linux.rs:262-274 | where the monitor matches a rule, the Linux lookup matches one no later |
| `LinuxPolicy.SameRuleExactly` | crates/sda-app-control/src/linux.rs:262-274 | both pick the same rule exactly when the rule Linux picks, if any, names the observed subject |
| `LinuxPolicy.TranslatesApartAgrees` | crates/sda-app-control/src/linux.rs:179-190 | they agree on a subject that translation merges with no other subject of the policy |
| `LinuxPolicy.AgreeExactly` | crates/sda-app-control/src/linux.rs:179-190 | they agree on every subject of a policy if and only if translation is injective on those subjects |
| `LinuxPolicy.AgreeEverywhereExactly` | crates/sda-app-control/src/linux.rs:262-274 | they agree on all observed subjects if and only if the policy has no rules: every rule has a second spelling |
| `LinuxPolicy.UnknownPrefixesMerge` | crates/sda-app-control/src/linux.rs:149-157 | prefixes of one kind are interchangeable: subjects that differ only there become one |
| `LinuxPolicy.MergedSubjectsDisagree` | crates/sda-app-control/src/linux.rs:179-190 | any two merged subjects give a policy that the monitor allows and Linux denies |
| `LinuxPolicy.PublisherIsNotTeam` | crates/sda-app-control/src/linux.rs:149-157 | team ids and publishers are merged: their prefixes are dropped |
| `LinuxPolicy.RenderPolicyFile` | crates/sda-app-control/src/linux.rs:219-240 | the string-building loop writes the preamble and one row per entry |
| `LinuxPolicy.RowReads` | crates/sda-app-control/src/linux.rs:211-238 | a row has exactly three tabs and no newline, and reads back as its entry with tabs and newlines replaced |
| `LinuxPolicy.FileReadsBack` | crates/sda-app-control/src/linux.rs:219-240 | cutting the file into lines, skipping comments and cutting at tabs recovers every entry in order |
| `LinuxPolicy.PolicyFileReads` | crates/sda-app-control/src/linux.rs:168-240 | the file of a payload shows every rule, in order, with its verdict and reason |
| `LinuxPolicy.PreambleReads` | crates/sda-app-control/src/linux.rs:219-232 | its first four lines are the header, the payload's version and mode, and the time of issue |
| `LinuxPolicy.MatchDecides` | crates/sda-app-control/src/linux.rs:262-274 | a match carries verdict and reason of the rule it stands for |
| `LinuxPolicy.KnownPrefixes` | crates/sda-app-control/src/linux.rs:149-190 | the five known prefixes and their kinds; a subject without a prefix is a hash |
| `LinuxPolicy.KindNameIsPrefix` | crates/sda-app-control/src/linux.rs:149-170 | the name a kind is shown by is a prefix of that kind |
| `LinuxPolicy.RenderExactly` | crates/sda-app-control/src/linux.rs:219-240 | two files are equal exactly when version, mode, printed issue time and entries as shown are equal |
| `LinuxPolicy.CleanRenderDetermines` | crates/sda-app-control/src/linux.rs:211-240 | with clean fields and one issue time the file determines version, mode and entries |

## Left out

- Sockets, TLS, HTTP, timers, the length prefix of TCP frames, process spawning, file and registry access: no property is decided by that code.
- The internals of SHA-256, MD5, Ed25519, AES and zlib, and the numeric Blowfish tables: the theorems hold for any functions and tables that meet the assumptions above.
- Concurrent use of the channel's counters: all senders hold a mutex, so calls are sequential.
- The legacy message encoding used when no cipher is set, and the tables of message types: finite field-by-field copying.
- `MaintenanceWindowPolicy` and the OS-specific providers: their answers are inputs.
- Decoding of args into structs: serde's strict decoding is a parameter; the caps applied after it are modelled.
- The event-bus payloads of processed jobs and policies: the same canonical printer, no further property.
- USB policy, WDAC rendering, dm-verity parsing, findings, recommendations, vitals, enrolment and configuration merging: shallow or separate code.
- The library sorts: insertion sort stands for them; only order and contents of the result are used.
- The range of the time library: adding and subtracting the clock tolerance (crates/sda-device-control/src/router.rs:312-317) is modelled on unbounded whole seconds, so the panic at the ends of the library's range is not; that no `expect` fires does not cover it.
- Time stamps: those inside records and of policy issue are integers with an abstract printer, those of observed decisions are dropped.
- Wire.WazuhCipher.Encrypt: does not model the overflow panic of a checked build; the counters wrap as in a release build, and `Counters.ChecksPassExactly` says on which frame the panic would be.
