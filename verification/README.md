# AnoSecureKit: verified model of file sealing, packets and encodings

This project models four connected parts of AnoSecureKit and proves what they promise, for all inputs, all runs and all
interleavings.

- **Sealed files (SKF1 and SKP1).** The seal and open loops are imperative methods over stream objects with status bits
  (`FileStreams`, `Streams`). Each is proved equal to a function that lists the writes it attempts and how it ends
  (`FileFormat`). About these functions: which byte strings open accepts (`Records`, `Acceptance`), what seal writes and
  when it succeeds (`Sealing`), what a sealed file is byte by byte (`SealedBytes`), and what rejecting and tampered runs
  write (`OpenRuns`). The byte formats with their
  codecs are in `FileCrypto` and `ByteStrings`.
- **The temp-file commit protocol (POSIX).** `CommitProtocol` is a state machine of any number of processes on one
  output name, over names bound to inodes and inodes holding bytes, with every step allowed to fail and every
  interleaving allowed. `PathRuns` holds the path-based calls with their payload loops over a shared filesystem, proved
  to take exactly the protocol's steps and to make exactly their changes. `SharedRuns` puts several such calls on one
  filesystem together and carries the protocol's theorems over to them.
- **SKT1 packets.** `PacketStream` holds the encryptor and decryptor objects and the theorems about whole sessions;
  `PacketSessions` says what every call answers and that rejected calls change nothing; `Aead` composes the one-shot calls
  from them.
- **Strict Base64 and Base64URL.** `Base64` and `Base64Url`.

AES-256-GCM is treated by its functional shape (sections 7.1 and 7.2 of NIST SP 800-38D): text is masked with a key
stream and the tag is a function of key, nonce, AAD and ciphertext (`Gcm`). The key stream and the tag function are
arbitrary, so every theorem holds for each choice of them, and decryption inverting encryption is proved, not assumed.
HKDF, scrypt and random bytes are arbitrary functions and inputs. Where a theorem needs that nobody forges tags, it
says so of the one input it is about: whatever verifies in that input was emitted by the seal.

Results where the code differs from the obvious claim:

- Open accepts more files than seal writes: a text that fills its chunks (a positive multiple of 1048576 bytes, below
  2^52) has a second encoding with one more, empty, final chunk. `Acceptance.PayloadAcceptance` gives the exact set,
  `Sealing.LongFileOpensButIsNeverSealed` the accepted file that no seal writes, and
  `Sealing.AcceptedIsSealedByLength` the condition, which the length of the file alone decides: with `n` bytes after the
  file header, an accepted file is a sealed one exactly if `n == 25` or `n % 1048601 != 25`.
- Sealing is refused with `invalid_input` for a caller AAD of more than INT_MAX - 59 bytes (SKF1) or INT_MAX - 73 bytes
  (SKP1), because the file header and the record header are authenticated in the same backend call; the file header has
  then been written. `Sealing.SealExact` gives the exact condition, `Sealing.LargestAadIsRefused` an instance.
- A path-based call can report success with its temporary name still there (the quiet removal failed), and can fail
  with it still there although no removal failed (no stdio handle could be made for the created file):
  `CommitProtocol.SuccessCanLeaveTempName` and `CommitProtocol.FailureCanLeaveTempName`. `CommitProtocol.CommitOutcome`
  gives the exact condition: the name stays if and only if no handle could be made for the file or every removal the
  call attempted failed (one, or two after a failed directory sync).
- A call can fail with its complete result bound: `CommitProtocol.FailureCanBindOutput`. `CommitProtocol.CommitOutcome`
  gives the exact condition: a call fails with the output bound if and only if the directory sync after its link failed.
- A stream that is already at end of file seals as empty input even if its bad bit is set, while open reports a failed
  read then and a malformed packet otherwise: `FileStreams.EndedStreams`.
- Two checks can never fire: "padding without data" at the end of the Base64 scan, and the canonical-form check of the
  Base64URL decoder.

## Model

| member | source | states |
|---|---|---|
| ByteStrings.U32RoundTrip | src/file_crypto.cpp:30-44 | storing and reading a 32-bit integer big-endian are inverse both ways |
| ByteStrings.StoreU32Be | src/file_crypto.cpp:30-36 | four buffer cells receive the integer big-endian, every other cell keeps its value |
| Gcm.DecryptExact | src/backend/crypto_backend_openssl.cpp:440-531 | decryption returns a text for a ciphertext and tag if and only if encryption of that text yields exactly them |
| Gcm.MaskTwice | src/backend/crypto_backend_openssl.cpp:440-531 | masking with the same key stream twice gives the text back |
| Gcm.XorIsXor | src/backend/crypto_backend_openssl.cpp:457 | masking a byte is bitwise exclusive or, bit by bit, and nothing else is |
| Gcm.MaskFlips | src/backend/crypto_backend_openssl.cpp:457 | a masked text is the text with exactly the key stream's bits flipped |
| Gcm.GcmExact | src/backend/crypto_backend_openssl.cpp:440-531 | what encryption and decryption return, told by the key stream, the tag function and the limit 2^31 - 1 |
| Gcm.MaskSplit | src/packet_stream.cpp:108-121 | processing a text in two updates equals processing it in one |
| FileCrypto.HeaderLayout | docs/FORMAT.md:70-135 | offsets and constant bytes of both headers, byte for byte |
| FileCrypto.MakeHeader | src/file_crypto.cpp:69-84 | filling the buffer field by field gives the SKF1 layout with the salt and nonce prefix drawn |
| FileCrypto.MakePasswordHeader | src/file_crypto.cpp:105-125 | filling the buffer field by field gives the SKP1 layout with the salt and nonce prefix drawn |
| FileCrypto.HeaderCodecExact | src/file_crypto.cpp:69-153 | each parser accepts exactly the byte strings its maker can produce, returns the fields they were made of, and reports every other string as a malformed packet |
| FileCrypto.HeaderCodecExactSkf1 | src/file_crypto.cpp:86-103 | the same for SKF1 |
| FileCrypto.HeaderCodecExactSkp1 | src/file_crypto.cpp:127-153 | the same for SKP1, scrypt parameters included |
| FileCrypto.MakeRecordHeader | src/file_crypto.cpp:189-199 | the nine bytes are index, size and final flag |
| FileCrypto.RecordCodecExact | src/file_crypto.cpp:189-217 | nine bytes parse as a record if and only if they are its bytes and its size fits a chunk; otherwise malformed |
| FileCrypto.RecordBytesInjective | src/file_crypto.cpp:189-199 | record bytes determine index, size and flag |
| FileCrypto.MakeNonce | src/file_crypto.cpp:181-187 | the twelve bytes are nonce prefix and big-endian chunk index |
| FileCrypto.ChunkNonceInjective | src/file_crypto.cpp:181-187 | a chunk nonce determines prefix and index |
| FileCrypto.MakeChunkAad | src/file_crypto.cpp:219-230 | the three parts in order, nothing between them |
| FileCrypto.ChunkAadInjective | src/file_crypto.cpp:219-230 | equal chunk AADs imply the same format, header, record and caller AAD, although the two headers differ in length |
| Streams.InputStream.Read | src/file.cpp:40-49 | what `read` and `gcount` deliver and which status bits they leave, for good, ended, failed and faulty streams |
| Streams.InputStream.Peek | src/file.cpp:53-60 | looking ahead tells whether input is left and sets the end or bad bit |
| Streams.InputStream.ReadExact | src/file_io.cpp:145-157 | full delivery, a short input, or a failed read, each exactly when the stream is so |
| Streams.InputStream.RejectTrailingData | src/file_io.cpp:159-171 | succeeds exactly when the stream properly ends here; data is malformed, a device fault a backend failure |
| Streams.OutputStream.WriteAll | src/file_io.cpp:131-138 | the sink takes the bytes or fails for good, and failure is reported |
| Streams.ExecuteAddsPrefix | src/file.cpp:25-164 | against any sink, what is added is a prefix of the run's output at every point, all of it unless a write failed, and the outcome is the run's or a backend failure |
| Streams.ExecuteUnlimited | src/file.cpp:25-164 | without write failures the sink receives the whole output and the run's own outcome is reported |
| Records.FramedIsJudged | src/file.cpp:121-155 | a complete, well placed record is judged by the AAD limit first, its tag second |
| Records.UnframedIsRejected | src/file.cpp:121-149 | anything else is a failed read if the device failed with the record cut short or its end still to be checked, and malformed otherwise |
| Records.ReadRecordExact | src/file.cpp:121-155 | one iteration accepts a chunk if and only if the input starts with exactly what sealing that chunk emits, full unless final, with nothing after a final one |
| Records.RecordVerdict | src/file.cpp:121-155 | for each error code, exactly the inputs that are reported so: authentication for well placed records with a wrong tag, a failed read for a faulty device whose record is cut short or final and complete, malformed for everything else that is not well placed |
| Acceptance.ShortPlanIsWhole | src/file.cpp:51-76 | cutting a text into as few chunks as possible gives consecutive indices, full non-final chunks, one final chunk, and the text back |
| Acceptance.LongPlanIsWhole | src/file.cpp:131-163 | so does the cut with one more, empty, final chunk |
| Acceptance.OnlyTwoPlans | src/file.cpp:117-163 | no other complete cut of a text exists |
| Acceptance.OpenReadsWholePlan | src/file.cpp:117-163 | a successful open has read the frames of a complete cut and nothing else, and wrote its chunks in order |
| Acceptance.OpenAcceptsWholePlan | src/file.cpp:117-163 | the frames of every complete cut open to its chunks |
| Acceptance.PayloadAcceptance | src/file.cpp:117-163 | a byte string opens to a text if and only if it is the short encoding of that text or, where it exists, the long one |
| Acceptance.FramesSize | src/file.cpp:61-69 | frames are as long as the text and 25 bytes for each chunk |
| Acceptance.ShortPlanSize | src/file.cpp:51-76 | the number of chunks seal writes is one, or the quotient by the chunk size rounded up |
| Acceptance.EncodingSizes | src/file.cpp:33-77 | the size law, and exactly which texts have two different encodings |
| Sealing.SealPlanIndices | src/file.cpp:61-76 | chunk indices count up from the first and never wrap, however long the input |
| Sealing.NoncesDistinct | src/file.cpp:61-76 | the nonces of one file are pairwise distinct |
| Sealing.SealLoopExact | src/file.cpp:37-77 | for every input: the frames written, and success, too-large, read-failure or AAD-limit outcome, each exactly when it applies |
| Sealing.SealExact | src/file.cpp:25-78 | sealing succeeds if and only if the secret and AAD are usable, the input is readable and at most 2^32 chunks long; it then wrote the sealed file |
| Sealing.SealVerdict | src/file.cpp:182-261 | the outcome of a seal for every input, in plain numbers, and what it wrote when it failed early |
| Sealing.OpenHeaderVerdict | src/file.cpp:222-317 | the outcome of every open that does not get past the header: empty password, short input, failed read, or bytes no header has |
| Sealing.FileAcceptance | src/file.cpp:190-234 | a whole file opens to a text if and only if it is some valid header followed by the short or long encoding under that header |
| Sealing.OpenAfterHeader | src/file.cpp:222-234 | a file with a well-formed header opens as its records do under the key and header it selects |
| Sealing.OpenEncodedFile | src/file.cpp:222-234 | every encoding of a text opens to it |
| Sealing.RoundTrip | src/file.cpp:182-234 | opening what a successful seal wrote gives back the input, for SKF1 and SKP1, every secret, AAD, salt and nonce prefix |
| Sealing.SealedFileSize | src/file.cpp:33-77 | header, text and 25 bytes for each chunk; the long encoding of a non-empty text is a different file |
| Sealing.LongFileOpensButIsNeverSealed | src/file.cpp:117-163 | "accepted exactly if sealed" fails for every text that fills its chunks |
| Sealing.AcceptedIsSealedBySize | src/file.cpp:33-77 | an accepted file is one that some seal of some input writes if and only if its length is that of the size law for the text it opens to |
| Sealing.AcceptedIsSealedByLength | src/file.cpp:33-77 | the length of the file alone decides which accepted files some seal of some input writes: all but those of one or more full chunks and then an empty one |
| Sealing.LargestAadIsRefused | src/backend/crypto_backend_openssl.cpp:54-61 | an AAD of the largest single-call size cannot be sealed under |
| SealedBytes.DeriveKeyIsFileKey | src/file_crypto.cpp:155-179 | the file key is HKDF of the caller's key with the salt and the spelled-out label, or scrypt of the password with N 32768, r 8, p 1 and 64 MiB |
| SealedBytes.HeaderInSealedFile | src/file_crypto.cpp:69-125 | the header at the front of what seal writes, field by field in literal values |
| SealedBytes.FrameParts | src/file_crypto.cpp:181-244 | index, size, flag, ciphertext and tag of a record, and the nonce and authenticated data they were made with |
| SealedBytes.FrameAt | src/file.cpp:37-77 | record `k` stands behind `k` full records, and the final one at the end |
| SealedBytes.RecordInSealedFile | src/file.cpp:37-77 | record `k` of what seal writes, byte for byte: place, index, size, flag, the chunk's text under the key stream, the tag, with the file key, nonce and authenticated data spelled out |
| OpenRuns.DecidingRecord | src/file.cpp:117-163 | a run fails with an error after certain writes if and only if the input is the frames of full non-final chunks with these texts, followed by something the next iteration rejects with that error, or all indices are used up; a failing run never writes the final chunk |
| OpenRuns.CutRecord | src/file.cpp:121-145 | an accepted record cut short is malformed, never unauthentic |
| OpenRuns.ExtendedRecord | src/file.cpp:146-149 | an accepted final record with anything after it is malformed |
| OpenRuns.TruncatedPayload | src/file.cpp:119-163 | every strict prefix of accepted records is malformed, and leading chunks of the accepted text were written |
| OpenRuns.ExtendedPayload | src/file.cpp:119-163 | every strict extension is malformed, and all chunks but the last were written |
| OpenRuns.PrefixFree | src/file.cpp:119-163 | the same for whole files, with no assumption on the cipher; what was written is a prefix of the accepted text |
| OpenRuns.FirstVerifiedIsFirstEmitted | src/file.cpp:121-153 | without forgery the first record that verifies is the first chunk sealed |
| OpenRuns.TamperedPayload | src/file.cpp:119-163 | without forgery, a run in the sealing context writes leading chunks of the sealed text and succeeds only on the sealed records |
| OpenRuns.SameContext | src/file_crypto.cpp:219-230 | one emitted tuple that verifies pins down header, file key and caller AAD, for every opening secret |
| OpenRuns.SealedVerifies | src/file.cpp:119-163 | opening sealed records verifies exactly the tuples that sealing emitted, in order |
| OpenRuns.SealedFileHasNoForgery | src/file.cpp:182-234 | the sealed file, with its records present, satisfies the no-forgery condition of the tampering theorem |
| OpenRuns.Tampering | src/file.cpp:190-317 | any input, under any key or password of either format and any caller AAD: without forgery only a prefix of the sealed text is written, anything at all only under the sealed header, the sealing file key and AAD, and success means the input is the sealed file |
| OpenRuns.TamperedOutput | src/file.cpp:190-234 | the same at every point of the run, on every sink |
| FileStreams.Crypto.EncryptChunk | src/file_crypto.cpp:232-244 | encrypts, and the nonce is on record even if encryption fails |
| FileStreams.UsedNoncesDistinct | src/file.cpp:61-76 | nonces on record after a seal, failed or not, are pairwise distinct |
| FileStreams.ReadChunk | src/file.cpp:40-60 | reading and looking ahead gives the next chunk, tells whether it is final, and leaves the rest; or reports a failed read |
| FileStreams.SealNextChunk | src/file.cpp:40-65 | one chunk read and sealed is the next step of the specification run, and its nonce is on record |
| FileStreams.WriteRecord | src/file.cpp:67-69 | header, ciphertext and tag in order, stopping at the first failed write |
| FileStreams.SealStreamPayload | src/file.cpp:25-78 | the loop leaves the sink and reports the outcome that the specification run does on that sink, and uses the nonces of the leading chunks, each once |
| FileStreams.Take | src/file.cpp:121-145 | exactly the next bytes, or malformed when the input ends, or a failed read |
| FileStreams.ReadAndDecrypt | src/file.cpp:121-153 | structure, trailing data and decryption, in that order, agree with the specification of one iteration |
| FileStreams.OpenFilePayload | src/file.cpp:109-164 | the loop leaves the sink and reports the outcome that the specification run does on that sink |
| FileStreams.ReadHeader | src/file.cpp:224-229 | the parsed header and the rest of the input, or the error |
| FileStreams.SealFile | src/file.cpp:182-188 | the stream call, for key and password, performs the specified seal run |
| FileStreams.OpenFile | src/file.cpp:222-234 | the stream call, for key and password, performs the specified open run |
| FileStreams.SealThenOpen | src/file.cpp:182-234 | the loops composed: sealing into memory succeeds if and only if secret and AAD are usable and the data at most 2^32 chunks long, and opening the result gives the data back |
| FileStreams.EndedStreams | src/file.cpp:40-60 | a stream already at end of file seals as empty input; opening it is a failed read or malformed, by its bad bit |
| FileStreams.FailedStreams | src/file.cpp:40-49 | a stream that failed before its end seals and opens as a failed read |
| CommitProtocol.TempName | src/file_io.cpp:238-257 | the temporary name is 50 characters longer than the output name, so never the output name |
| CommitProtocol.TempNameLayout | src/file_io.cpp:238-257 | a temporary name is the output name, the fixed infix, the token in lower-case hexadecimal, and the fixed suffix |
| CommitProtocol.TempNameInjective | src/file_io.cpp:238-257 | different tokens give different names |
| CommitProtocol.CheckStepKeeps | src/file_io.cpp:284-296 | the existence check keeps the process invariant |
| CommitProtocol.TempStepKeeps | src/file_io.cpp:298-315 | so does every outcome of creating the temporary file |
| CommitProtocol.WritingStepKeeps | src/file_io.cpp:67-115 | so does every write, partial write and flush: file, buffer and outstanding writes together are the complete result |
| CommitProtocol.CommitStepKeeps | src/file_io.cpp:323-347 | so do close, link, removal and directory sync |
| CommitProtocol.CleanUpStepKeeps | src/file.cpp:214-219 | so do discard and removal on the error path |
| CommitProtocol.StepKeepsOther | src/file_io.cpp:337-347 | a step of one process leaves the invariant of every other process intact, and their files apart |
| CommitProtocol.StepKeepsOutput | src/file_io.cpp:337-347 | a step never rebinds a bound output and never changes its bytes |
| CommitProtocol.PerformKeeps | src/file.cpp:190-220 | the system invariant survives any action of any process |
| CommitProtocol.RunKeeps | src/file.cpp:190-220 | and any sequence of actions |
| CommitProtocol.CommitSafety | src/file_io.cpp:337-347 | in every interleaving, at every moment: the output is unbound, bound as at the start with its old bytes, or holds one process's complete result; once bound never rebound or changed; at most one link succeeds, none if the output existed |
| CommitProtocol.CommitOutcome | src/file.cpp:190-220 | how an ended call stands: success means bound with the complete result; it failed with the output bound if and only if the directory sync failed, the complete result being in place; a lost link means invalid input; its temporary name stays if and only if it had no handle or every removal failed |
| CommitProtocol.LateLinkLoses | src/file_io.cpp:337-347 | a link attempted after the output was bound changes nothing and fails with invalid input, or with a backend failure if it failed otherwise |
| CommitProtocol.BoundOutputIsRefused | src/file_io.cpp:284-296 | a call whose check finds the output bound ends with invalid input, changes no file and never creates one, whatever follows |
| CommitProtocol.SuccessCanLeaveTempName | src/file_io.cpp:317-321 | for every job that can succeed, a run that succeeds with its complete result in the output and leaves its temporary name |
| CommitProtocol.FailureCanLeaveTempName | src/file_io.cpp:227-232 | a run that fails and leaves its temporary name although no removal failed |
| CommitProtocol.FailureCanBindOutput | src/file_io.cpp:337-342 | for every job that can succeed, a run that fails with its complete result in the output |
| PathRuns.PathRun.EnsureOutputDoesNotExist | src/file_io.cpp:284-296 | takes the protocol's check step with the reported result |
| PathRuns.PathRun.TryOpenOutputExclusive | src/file_io.cpp:193-234 | takes one creation step; opened, exists and failed each leave the process where the protocol does |
| PathRuns.PathRun.TakeHandle | src/file_io.cpp:227-233 | a created file gets its handle or is left behind and the call fails |
| PathRuns.PathRun.DrawRandomBytes | src/file_crypto.cpp:77-78 | a failing random source ends the call as the protocol does |
| PathRuns.PathRun.OpenUniqueTempOutput | src/file_io.cpp:298-315 | 32 attempts at most, then a backend failure |
| PathRuns.PathRun.Write | src/file_io.cpp:67-78 | takes the next payload write, or fails having passed on any part of it; an empty write does nothing |
| PathRuns.PathRun.WriteRecord | src/file.cpp:67-69 | header, ciphertext and tag are the next three payload writes, in order |
| PathRuns.PathRun.SealStreamPayload | src/file.cpp:25-78 | the seal loop on the temporary file makes exactly the writes of the specification run, ends as it does unless a write call failed, and uses the nonces of the leading chunks, each once |
| PathRuns.PathRun.OpenFilePayload | src/file.cpp:109-164 | the open loop on the temporary file makes exactly the writes of the specification run and ends as it does, unless a write call failed |
| PathRuns.PathRun.OpenInput | src/file_io.cpp:173-181 | an input that cannot be opened is a backend failure with nothing written |
| PathRuns.PathRun.Flush | src/file_io.cpp:93-115 | the whole buffer reaches the file, or the call fails |
| PathRuns.PathRun.Close | src/file_io.cpp:80-91 | the handle is gone either way |
| PathRuns.PathRun.FlushParentDirectory | src/file_io.cpp:259-280 | ends the call, or fails it after the link |
| PathRuns.PathRun.LinkToOutput | src/file_io.cpp:337-346 | one atomic link: bound, lost to an existing output, or failed |
| PathRuns.PathRun.CommitTempFile | src/file_io.cpp:323-347 | link, quiet removal, directory sync, in that order |
| PathRuns.PathRun.RemoveQuietly | src/file_io.cpp:317-321 | the process goes on whether or not the removal worked |
| PathRuns.PathRun.DiscardOutput | src/file_io.cpp:117-129 | the handle is gone, its close unreported, and the first error is kept |
| PathRuns.PathRun.Commit | src/file.cpp:210-212 | flush, close and commit, each only after the one before succeeded |
| PathRuns.PathRun.Abandon | src/file.cpp:214-219 | discard, then removal, then the first error goes on |
| PathRuns.PathRun.SealAndCommit | src/file.cpp:90-99 | the `try` block of a seal: each part only after the one before succeeded |
| PathRuns.PathRun.OpenAndCommit | src/file.cpp:195-213 | the `try` block of an open: each part only after the one before succeeded |
| PathRuns.VerdictNamesCause | src/file.cpp:190-220 | any outcome but the payload's own names the system call that stands for it, or 32 taken names; without such a cause the outcome is the payload's own |
| PathRuns.PathRun.SealFile | src/file.cpp:173-248 | an empty password is refused before any system call; otherwise, with arbitrary changes by others between system calls, the call reads and seals its input through enabled protocol steps from start to end, its changes to the filesystem are exactly those of the steps, and its outcome is that of its system calls' first fault or else that of the seal |
| PathRuns.PathRun.OpenFile | src/file.cpp:190-298 | the same for opening: an open fails otherwise than its input says only if a system call failed or the output was bound |
| SharedRuns.SharedRunIsSystemRun | src/file.cpp:190-220 | calls that each keep to the protocol, as the code ensures, on one filesystem and in any order of their steps, are together a run of the whole system: it arrives at the filesystem their changes made and at their processes |
| SharedRuns.ChangesMakeFilesystem | src/file.cpp:190-220 | that filesystem is the initial one with the recorded changes of the calls applied in order, and each call's part of them is its own record |
| SharedRuns.CallsAreSafe | src/file_io.cpp:337-347 | for such calls, at every moment: the output is unbound, as at the start, or one call's complete result; once bound never rebound or changed; at most one call bound it |
| SharedRuns.CallOutcome | src/file.cpp:190-220 | for such calls: reported success means the output holds the complete result; failure with the output bound means exactly a failed directory sync; a call that did not bind never has its file as the output; its temporary name stays exactly if it had no handle or every removal failed |
| SharedRuns.ReportedSealOpens | src/file.cpp:173-180 | for such calls: when a seal reports success, opening what the output holds gives back its input |
| SharedRuns.ReportedOpenIsAuthentic | src/file.cpp:190-220 | for such calls: when an open reports success, the output is a text that its input encodes under the caller's secret and AAD |
| SharedRuns.WinnerDelivers | src/file_io.cpp:337-342 | the output holds the result of the process that linked it |
| SharedRuns.OpenedOutputIsAuthentic | src/file.cpp:190-220 | if an open bound the output, the output is a text that the input file encodes under the caller's secret and AAD |
| SharedRuns.SealedOutputOpens | src/file.cpp:80-106 | if a seal bound the output, opening the output gives back what was sealed |
| PacketStream.PacketEncryptor.Create | src/packet_stream.cpp:35-40 | refuses an AAD above the backend limit, otherwise ready without a context |
| PacketStream.PacketEncryptor.Begin | src/packet_stream.cpp:85-106 | new state and reply of `begin` in every state |
| PacketStream.PacketEncryptor.Update | src/packet_stream.cpp:108-121 | new state and reply of `update` in every state |
| PacketStream.PacketEncryptor.Finalize | src/packet_stream.cpp:123-141 | new state and reply of `finalize` in every state |
| PacketStream.PacketEncryptor.MoveAway | src/packet_stream.cpp:81-83 | the state moves over, the moved-from object has none |
| PacketStream.PacketEncryptor.MoveFrom | src/packet_stream.cpp:83 | move assignment takes over the other object's state and leaves that one with none |
| PacketStream.EncryptorStepKeeps | src/packet_stream.cpp:85-141 | every call, accepted or rejected, keeps the session invariant |
| PacketStream.EncryptorLifecycle | src/packet_stream.cpp:85-141 | over every call sequence at most one `begin` and one `finalize` succeed, a context exists exactly while active, and what was given out is the packet of exactly the successful updates |
| PacketStream.EncryptorSessionsMove | src/packet_stream.cpp:81-141 | the same for sessions that go on in the objects the state is moved to: over all of them at most one `begin` and one `finalize` succeed, and together they give out one packet |
| PacketStream.PacketDecryptor.Create | src/packet_stream.cpp:56-61 | refuses an AAD above the backend limit, otherwise ready without a context |
| PacketStream.PacketDecryptor.Begin | src/packet_stream.cpp:153-175 | new state and reply of `begin` in every state; a bad prefix changes nothing |
| PacketStream.PacketDecryptor.Update | src/packet_stream.cpp:177-190 | new state and reply of `update` in every state |
| PacketStream.PacketDecryptor.Finalize | src/packet_stream.cpp:192-226 | new state and reply of `finalize` in every state; a bad tag or tag size finishes the object |
| PacketStream.PacketDecryptor.MoveAway | src/packet_stream.cpp:149-151 | the state moves over, the moved-from object has none |
| PacketStream.PacketDecryptor.MoveFrom | src/packet_stream.cpp:151 | move assignment takes over the other object's state and leaves that one with none |
| PacketStream.DecryptorStepKeeps | src/packet_stream.cpp:153-226 | every call, accepted or rejected, keeps the session invariant |
| PacketStream.DecryptorLifecycle | src/packet_stream.cpp:153-226 | over every call sequence at most one `begin` and one `finalize` succeed, ready and finished mean what was seen, and after a successful `finalize` the bytes taken in are a packet of the text given out |
| PacketStream.DecryptorSessionsMove | src/packet_stream.cpp:149-226 | the same for sessions that go on in the objects the state is moved to |
| PacketStream.AnyCutEncrypts | src/packet_stream.cpp:85-141 | any cut of a text into updates gives the packet of the text |
| PacketStream.AnyCutDecrypts | src/packet_stream.cpp:153-226 | a packet fed under any other cut gives the text back and `finalize` succeeds |
| PacketSessions.PacketLayout | src/packet_stream.cpp:97-141 | the bytes of a packet: literal header, nonce, ciphertext bit by bit, and the tag over literal header, AAD and ciphertext |
| PacketSessions.EncryptorState | src/packet_stream.cpp:85-141 | after any calls an encryptor has no state exactly if it was moved from, and otherwise is ready, active or finished as its successful calls say |
| PacketSessions.EncryptorReply | src/packet_stream.cpp:85-141 | after any calls, the exact reply to every call, each error code included |
| PacketSessions.AnySessionEncrypts | src/packet_stream.cpp:85-141 | a session with rejected calls put in anywhere gives the packet of the updates that were taken |
| PacketSessions.DecryptorState | src/packet_stream.cpp:153-226 | after any calls a decryptor has no state exactly if it was moved from; a bad prefix leaves it ready, a bad tag or tag size finishes it |
| PacketSessions.DecryptorReply | src/packet_stream.cpp:153-226 | after any calls, the exact reply to every call, each error code included |
| PacketSessions.AnySessionDecrypts | src/packet_stream.cpp:153-226 | a session with rejected calls put in anywhere gives the text |
| Aead.Encrypt | src/aead.cpp:17-26 | the composed calls give the packet of the text, or the error of the first part that fails |
| Aead.Decrypt | src/aead.cpp:28-53 | the composed calls give the specified result; no text on failure |
| Aead.PacketAcceptance | src/aead.cpp:28-53 | a byte string decrypts to a text if and only if it is the packet of that text under some nonce and no part exceeds a backend call; it is then 33 bytes longer |
| Aead.DecryptVerdict | src/aead.cpp:28-53 | the text or the exact error for every byte string, told by its bytes |
| Base64.SextetCharIsAlphabet | src/base64.cpp:9 | the encoder's characters are the 64 of the alphabet, in order |
| Base64.DecodeCharIsPlace | src/base64.cpp:11-34 | a character decodes to its place in the alphabet, and to -1 exactly if it has none |
| Base64.EncodedGroup | src/base64.cpp:114-126 | the four characters of each group are those of the alphabet at the six-bit pieces of its bytes, with `=` where no byte contributes; the length is four for every three bytes or rest |
| Base64.GroupSextets | src/base64.cpp:122-125 | the sextets computed from single bytes are those of the 24-bit group |
| Base64.Base64Encode | src/base64.cpp:103-129 | the loop produces the encoding defined on 24-bit groups with padding |
| Base64.RejectInvalidBase64 | src/base64.cpp:41-80 | the scan accepts exactly multiples of four characters, of the alphabet up to at most two trailing `=` |
| Base64.ScanIsWellPadded | src/base64.cpp:41-80 | scanned strings have `=` only in the last one or two places of the last group |
| Base64.DecodeLoop | src/base64.cpp:182-198 | all sextets are in range and the loop produces the bytes of each group |
| Base64.Base64Decode | src/base64.cpp:154-206 | scan, loop and re-encode test together compute the decoding |
| Base64.DecodeOfEncode | src/base64.cpp:103-206 | every encoding passes the scan and decodes to its bytes |
| Base64.Base64Exact | src/base64.cpp:154-206 | a string decodes to bytes if and only if it is their encoding; every failure is an encoding error |
| Base64.GroupCanonical | src/base64.cpp:184-203 | re-encoding one decoded group gives it back exactly when its unused bits are zero |
| Base64.CanonicalFormCheck | src/base64.cpp:200-203 | after the scan, the re-encode test fires exactly when unused pad bits are set |
| Base64Url.Base64UrlEncode | src/base64.cpp:131-152 | rewriting in place and popping padding gives the Base64 encoding in the URL alphabet, unpadded |
| Base64Url.UrlCharacters | src/base64.cpp:131-152 | each character is the one of the 64-character URL alphabet at the place of the Base64 character, and there are as many as the bytes need |
| Base64Url.RejectInvalidBase64Url | src/base64.cpp:82-96 | the scan accepts exactly URL-alphabet strings whose length is not 1 modulo 4 |
| Base64Url.Base64UrlDecode | src/base64.cpp:208-246 | scan, translation, padding, strict decoding and re-encode test together compute the decoding |
| Base64Url.PaddedOfUrlEncode | src/base64.cpp:208-239 | decoding a URL encoding hands exactly the padded Base64 encoding on |
| Base64Url.OuterCheckIsRedundant | src/base64.cpp:240-243 | the second canonical-form check can never fire |
| Base64Url.Base64UrlExact | src/base64.cpp:208-246 | a string decodes to bytes if and only if it is their URL encoding; every failure is an encoding error |

## Left out

- OpenSSL itself: allocation and call failures during an operation, and the total-length limit of one GCM operation. After such a failure in `begin` an object would be ready and hold a context; the model has no such state.
- Streams.InputStream.Read: a device fault delivers none of the bytes before it, as `std::istream` does when its buffer throws; exception masks and stream buffers that report errors as end of file are not modelled.
- Streams.OutputStream.WriteAll: a failing sink is one with limited room; it keeps what fits.
- CommitProtocol.CommitSafety: relies on temporary names not being created twice (they carry 128 random bits), and on no other program renaming or removing names; programs other than these calls appear only as the arbitrary changes between the system calls of `PathRuns`.
- SharedRuns.CallOutcome: the same, and the calls it speaks of have one output name in common.
- CommitProtocol.CommitOutcome: nothing is said about calls that never end, and nothing about what survives a power loss.
- PathRuns.PathRun.SealFile: the input file changing after the call began is not modelled; nor is a key derivation that fails.
- PathRuns.PathRun.OpenFile: as for `PathRuns.PathRun.SealFile`.
- FileStreams.SealStreamPayload: the chunk size is the constant 1048576, not a parameter.
- HKDF, scrypt and the random source are arbitrary functions and inputs; a failing scrypt call is not modelled.
- Windows and fallback branches of the file code, permission bits and symbolic links.
- `secure_wipe`, `wipe_on_exit`, timing of comparisons and key strength.
- Size checks against `max_size()` in the Base64 functions: sequences are unbounded.
- The command line tool, hex codec, key wrap, hashing, version and random-token functions, web pages and build scripts.
