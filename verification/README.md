# A verified model of the crypt toolkit's protocols

This project models what the Go package `crypt` builds around its cryptographic primitives, and proves what
those protocols promise: the chunked stream (`stream.go`), the version-1 box (`aead.go`), the key ring
(`keyring.go`), padding and CBC (`cbc.go`), format detection (`auto.go`) and the migration loop that uses it,
the KMS envelope (`kms.go`), expiring tokens (`timelock.go`), password hash strings (`password.go`) and the
MAC-chained audit log.

Each operation has a specification function on byte strings. Where the source updates things in place, a
method on arrays, maps and objects is proved to compute that function; the promises are lemmas about the
functions, for all inputs.

| files | content |
|---|---|
| `Octets`, `Errors`, `Division`, `Primitives`, `GoIO` | integer fields, sentinel errors, chunk arithmetic, ciphers as records of functions, readers and writers with a fault that can be put anywhere |
| `StreamFormat`, `StreamSeal`, `StreamOpen`, `StreamRoundTrip`, `StreamSecurity`, `StreamOutcome`, `StreamLimits` | the stream: format, the two loops, honest and broken-off streams, streams from an adversary, every outcome of the opener, and where the counter ends the guarantees |
| `Base64`, `Hex`, `AeadV1`, `Cbc`, `Auto`, `Migration` | the two text encodings, the two ciphertext formats, telling them apart, rewriting a table |
| `KeyRing`, `KeyRingRuns` | the ring object and what holds over whole runs |
| `Envelope`, `EnvelopeHeap` | the envelope frame; the KMS, its buffers and their wiping |
| `Timelock`, `Password`, `AuditChain` | tokens, PHC strings, the MAC chain |

## Idealised primitives

AES-GCM, AES on one block, HMAC and argon2 are records of functions. The laws a result uses stand in its
`requires`: `Gcm.Lawful` (opening inverts sealing, 16 bytes of tag), `BlockCipher.Lawful` (a permutation of
16-byte blocks), `Hmac.Lawful` (32 bytes). No forgery and no collision are assumed only of the messages that
occur: `StreamSecurity.UnforgedStream` and, for boxes, rings and tokens, `Primitives.Unforged` speak of the
nonces, aads and ciphertexts that one call of an opener passes to the cipher; `AuditChain.Unforged` and
`AuditChain.NoCollision` speak of the messages that the logs sign. Stand-in primitives meet the laws
(`ToyGcmIsLawful`, `ReversingIsLawful`, `ToySign`), and for each set of hypotheses there is an instance that meets
all of them: `HypothesesAreMet` in `StreamSecurity`, `AeadV1`, `KeyRingRuns` and `AuditChain`;
`StreamSecurity.HonestIsUnforged` does so for every honest stream.
Random bytes and the clock are parameters; a random source that fails is `None`.

## Where code and documentation differ

The model follows the code.

- `keyring.go:19-23` and `136-138` say that version-1 text is tried with the active key only; the code tries
  every key (`keyring.go:149-157`, `FallbackIsSomeKey`).
- `keyring.go:190-193` says that the order of the other ids does not matter. It does where several keys open a
  frame to different plaintexts and the active key is not among them, and only there (`OrderDoesNotMatter`).
- `stream.go:139-140` promises `ErrTruncated` for a stream without its last chunk. A cut inside a chunk body or
  right after a length field gives `ErrInvalidCiphertext` instead (`CutIsRejected`).
- `stream.go:107-108` takes `io.ErrUnexpectedEOF` from the reader for the end of its data, so a source that
  breaks off in that way is sealed as a complete, shorter stream (`InterruptedIsRejected`).
- `stream.go:208-211` says that counter and flag in the AAD prevent reordering and truncation. The counter wraps
  unchecked (`stream.go:129`, `stream.go:194`), so this holds exactly up to 2^32 chunks: a longer finished
  stream is accepted without its first 2^32 chunks (`FrontDropped`, `AcceptanceBound`), and after 2^32 chunks
  not flagged as last an earlier one is taken again (`ChunkReplayed`, `PrefixBound`).
- `SECURITY.md:28` says that modifying any part of a ciphertext is detected. That holds of the decoded bytes;
  the text may be changed by line breaks and by the unused bits of its last character (`DecodesTo`,
  `LineBreaksOpen`).
- `WIRE_FORMAT.md` calls a false positive of the AEAD detector on CBC text very unlikely. For lower-case hex,
  which is what is written, there is none (`CbcTextIsNoBox`); nor do the detectors ever change the result
  (`DetectorsLoseNothing`).
- `kms.go:110-113` says that comparing in 64 bits keeps the slice in range. The slice bound itself is taken in
  32 bits, so this is so only below 2^32 - 5 (`PanicsExactly`).
- `examples/audit_log_chain/main.go:5-7` says that removing any entry breaks the chain. Removing entries at the
  end does not, nor does removing one whose MAC equals the MAC before it (`DroppedEntry`); every other departure
  from what was signed is reported where it begins (`TamperEvidence`). Fields with the
  separator in them can be shifted without changing what is signed (`PayloadDetermines`).
- A token whose lifetime is under a second may be expired when it is issued, because expiry is rounded down to a
  second (`AliveAtIssue`).
- `password.go:85` promises `ErrInvalidPasswordHash` for a malformed hash. One with a time cost or parallelism
  of zero parses, and the derivation then panics (`StoredDecides`).

## Model

| member | source | states |
|---|---|---|
| `StreamSecurity.OpenAnswersSeal` | stream.go:66-199 | Against any number of `SealStream` calls under one key, finished or broken off at any length, with distinct nonce prefixes and finished inputs under 2^32 chunks: `OpenStream` returns nil exactly when the input begins with the whole output of one finished call, and then it wrote that call's whole input |
| `StreamSecurity.ExactAcceptance` | stream.go:141-199 | The same over abstract runs: nil if and only if a complete run's output is a prefix of the input; bytes read and written are that run's output and plaintext, so reordering, splicing, dropping, repeating and early ends are all refused |
| `StreamLimits.AcceptanceBound` | stream.go:99-199 | The bound is exact: nil always means one whole run if and only if no complete run has more than 2^32 chunks; broken-off runs do not matter |
| `StreamLimits.CallsBound` | stream.go:99-199 | The same for `SealStream` calls: if and only if every finished call had an input shorter than 2^32 times its chunk size |
| `StreamLimits.FrontDropped` | stream.go:129-197 | The failing stream: a complete run of more than 2^32 chunks is accepted without its first 2^32, and only the rest is written |
| `StreamLimits.TooLong` | stream.go:66-199 | One such call: 2^32 zero bytes in chunks of one byte, sealed to the end; after it the opener accepts what is not the whole of it |
| `StreamSecurity.PrefixSafety` | stream.go:167-198 | On any input, with any error and any writer, what was written is the front of the plaintext of the first `m` chunks of one run, whose frames are verbatim in the input |
| `StreamLimits.PrefixBound` | stream.go:99-198 | The bound is exact: this holds for all inputs if and only if no run has 2^32 or more chunks that are not flagged as last |
| `StreamLimits.CallsPrefixBound` | stream.go:99-198 | The same for `SealStream` calls, which never make an empty chunk before the last |
| `StreamLimits.ChunkReplayed` | stream.go:129-197 | The failing stream: past that bound a chunk of the run is accepted and written a second time |
| `StreamSecurity.OpenDelivers` | stream.go:141-199 | Names the run and the number of chunks behind every outcome of the opener; a header prefix no run used gets nothing through |
| `StreamSecurity.Follows` | stream.go:167-198 | Step by step: a loop started on chunk `i` of a run can only go along that run's chunks, in order, and ends in nil only behind its last |
| `StreamSecurity.LoggedChunk` | stream.go:185-187 | Nonce and AAD bind a chunk: one that authenticates at position `i` is chunk `i` of the run with this prefix, last or not as flagged |
| `StreamSecurity.FieldEncodes` | stream.go:176-178 | A length field is determined by the flag and length read from it |
| `StreamSecurity.LimitedFrames` | stream.go:191-193 | A writer of limited room receives the front of what an unlimited one receives, and the failing write is the only difference |
| `StreamSecurity.SealedRunIsGood` | stream.go:99-134 | Whatever ends a call of the sealer, the chunks it sealed are a front part of its input; a finished call leaves the counter unwrapped if and only if its input is shorter than 2^32 times the chunk size |
| `StreamSecurity.BrokenFramesNeverEnd` | stream.go:167-198 | Under the prefix of a broken-off run of any length the opener never returns nil |
| `StreamSecurity.HonestIsUnforged` | stream.go:141-199 | Every honest stream, under every lawful cipher, meets the no-forgery hypothesis |
| `StreamSecurity.HypothesesAreMet` | stream.go:66-199 | A cipher, key, log and input that meet all hypotheses of exact acceptance together |
| `StreamRoundTrip.SealThenOpen` | stream.go:66-199 | The two calls in a row: with a 32-byte key, a chunk size in 1..2^30, entropy and a reader that does not fail, neither returns an error and the second writes what the first read |
| `StreamRoundTrip.RoundTrip` | stream.go:66-199 | `OpenStream` after `SealStream` returns the plaintext for every length and every chunk size in 1..2^30, past counter wrap, and ignores whatever follows |
| `StreamRoundTrip.WireOpens` | stream.go:141-199 | Every complete run is read back whole, however it was cut into chunks |
| `StreamRoundTrip.CutIsRejected` | stream.go:146-183 | A strict prefix of a sealed stream is never accepted: the exact error, bytes consumed and bytes written as a function of where the cut is |
| `StreamRoundTrip.InterruptedIsRejected` | stream.go:88-133 | What a sealer leaves behind opens if and only if its reader ended (cleanly or unexpectedly) and its writer took every byte; otherwise `ErrInvalidCiphertext` or `ErrTruncated` |
| `StreamRoundTrip.DistinctNonces` | stream.go:100-113 | Within one run the chunk nonces are pairwise distinct if and only if L < 2^32 times the chunk size |
| `StreamRoundTrip.WireSize` | stream.go:99-134 | L div c + 1 chunks and 13 + L + 20 (L div c + 1) bytes; the last chunk is empty exactly when c divides L; every chunk stays below 2^31 bytes |
| `StreamRoundTrip.WireLayout` | stream.go:88-127 | Header bytes, and for every chunk its offset on the wire, its plaintext slice, nonce, AAD and flagged length, in closed form |
| `StreamRoundTrip.SourceShape` | stream.go:102-111 | Full chunks and one shorter last chunk; a failing reader leaves no last chunk |
| `StreamFormat.FieldIsSum` | stream.go:117-121 | The length field is the length plus 2^31 on the last chunk, in big-endian bytes |
| `StreamFormat.FieldDecodes` | stream.go:117-121 | Length and last flag are read back independently exactly when the length is below 2^31 |
| `StreamFormat.NonceInjective` | stream.go:201-206 | Nonces agree exactly when prefix and counter do |
| `StreamFormat.AadInjective` | stream.go:212-219 | AADs agree exactly when counter and last flag do |
| `StreamSeal.SealStream` | stream.go:66-134 | The writing loop emits the run of its input, cut off where the writer runs out of room; which error is returned; how many chunks were sealed by then; a key that is not 32 bytes, a chunk size outside 1..2^30 and missing entropy are refused in this order, and nothing else is; refusals touch nothing |
| `StreamSeal.SealChunks` | stream.go:99-134 | The chunk loop: bytes out, chunks sealed and error for every reader and writer |
| `StreamSeal.MakeStreamNonce` | stream.go:201-206 | Prefix followed by the big-endian counter |
| `StreamSeal.MakeStreamAad` | stream.go:212-219 | Big-endian counter followed by the flag byte |
| `StreamSeal.MakeLenField` | stream.go:117-121 | Big-endian length with the top bit set on the last chunk |
| `StreamOutcome.OpenExactly` | stream.go:141-199 | What the opener writes, consumes and returns, without its loop: for every input, reader end and writer, the outcome is the one that header, chunks that pass and the bytes behind them determine, each error with its own condition |
| `StreamOutcome.TamperedExactly` | stream.go:185-189 | `ErrTampered` if and only if, behind chunks that all open, there is a whole chunk that the cipher refuses in that place |
| `StreamOutcome.ChangedChunk` | stream.go:185-189 | A changed or foreign chunk behind the first `i` of a run that the cipher refuses: exactly their plaintext is written, and the error is `ErrTampered` |
| `StreamOpen.OpenStream` | stream.go:141-199 | The reading loop computes `OpenBytes`: bytes written, bytes consumed and error, for every input, reader end and writer |
| `StreamOpen.OpenTurn` | stream.go:168-197 | One turn of the loop, and when it goes round again |
| `StreamOpen.ReadHeader` | stream.go:146-156 | Which error for which header, and otherwise its nonce prefix |
| `StreamOpen.ReadChunk` | stream.go:169-183 | Length field and body: which error for which missing byte |
| `GoIO.Reader.ReadFull` | stream.go:102-111 | Fills the buffer or reports EOF, unexpected EOF or the reader's own fault |
| `Octets.Be32Inverse` | stream.go:118 | A four-byte big-endian field holds a number exactly when it decodes to it |
| `Octets.Be32Digits` | stream.go:118 | The four bytes are the base-256 digits of the number, the highest first |
| `Octets.Be64Digits` | timelock.go:43 | Eight bytes are two such halves, the higher first |
| `Octets.WrapNext` | stream.go:129 | The wrapping counter of chunk `n` is `n` modulo 2^32 |
| `Base64.RoundTrip` | aead.go:66-129 | Decoding inverts encoding; four thirds of the length, rounded up; only alphabet characters |
| `Base64.DigitsAt` | aead.go:129 | Each group of three bytes makes the four characters of RFC 4648's table for its 24 bits, from the top; a short last group makes two or three |
| `Base64.DigitTable` | aead.go:129 | The two tables, character by character |
| `Base64.StripIs` | aead.go:66 | Carriage returns and line feeds are skipped, nothing else |
| `Base64.DecodesTo` | aead.go:66 | Exactly the strings that decode to given bytes: the encoding, but for line breaks and the unused bits of its last digit |
| `Base64.StringsAreMalleable` | aead.go:66 | Three different strings that decode alike |
| `AeadV1.SealWithNonce` | aead.go:101-130 | Errors in order, and the text for a given or a fresh nonce |
| `AeadV1.Sealer.Seal` | aead.go:194-204 | The same text as `sealWithNonce` for the same nonce |
| `AeadV1.RoundTrip` | aead.go:61-130 | `Open` inverts `Seal`; size of the text |
| `AeadV1.OpensExactly` | aead.go:61-94 | For every key, string and aad: each error, and each plaintext, if and only if its condition on the decoded bytes and on the cipher holds |
| `AeadV1.OpensExactlyTheLog` | aead.go:61-94 | Authenticity: if the cipher accepts only what it sealed, a string opens to `p` if and only if it decodes to a whole frame, version byte and nonce included, that was sealed under the same aad around `p` |
| `AeadV1.HypothesesAreMet` | aead.go:61-130 | A cipher, key, log and text that meet these hypotheses, and the text opens |
| `AeadV1.SealerRefinesOpen` | aead.go:177-227 | `NewSealer(key).Open` and `Open(key, ..)` agree on plaintext and error for every key, string and aad |
| `AeadV1.LineBreaksOpen` | aead.go:61-94 | A line break anywhere in the text changes nothing |
| `Hex.DigitAt` | cbc.go:78 | Characters `2i` and `2i + 1` are the lower-case digits of the halves of byte `i` |
| `Hex.DecodesDigits` | cbc.go:93 | A string decodes to given bytes if and only if it is twice as long and its characters are their digits, in either case |
| `Hex.DecodesTo` | cbc.go:78-96 | A string decodes to given bytes exactly when it is their encoding up to letter case |
| `Cbc.PadBuffer` | cbc.go:128-137 | The padding loop computes `Pad` |
| `Cbc.UnpadBuffer` | cbc.go:140-156 | The checking loop computes `Unpad` |
| `Cbc.UnpadExact` | cbc.go:128-156 | For block sizes 1..255 `unpad` accepts exactly the image of `pad` and undoes it |
| `Cbc.PadRoundTripLimit` | cbc.go:128-156 | For every block size: the round trip holds if and only if the padding length fits a byte |
| `Cbc.PadIs` | cbc.go:128-137 | For 16-byte blocks: up to the next full block, every byte of padding counting them |
| `Cbc.XorIsBitwise` | cbc.go:76-113 | A bit of the combined byte is set if and only if the bits of the two bytes differ |
| `Cbc.BitsDetermine` | cbc.go:76-113 | Bytes with the same bits are the same |
| `Cbc.TextLayout` | cbc.go:55-79 | The text, block by block: the IV, and as block `j` the cipher's image of the bits in which padded plaintext block `j` differs from the block before it |
| `Cbc.DecEnc` | cbc.go:76-113 | CBC decryption inverts CBC encryption under the same IV |
| `Cbc.EncDec` | cbc.go:76-113 | and the other way round |
| `Cbc.CryptBlocks` | cbc.go:70-77 | The encrypting loop fills the buffer behind the IV with the chained blocks |
| `Cbc.DecryptInPlace` | cbc.go:112-113 | Decrypting a buffer onto itself gives the chained plaintext blocks |
| `Cbc.EncryptCBC` | cbc.go:55-79 | Errors, and the text for a key, IV and plaintext |
| `Cbc.DecryptCBC` | cbc.go:88-120 | Errors in order, and the plaintext |
| `Cbc.RefusedText` | cbc.go:88-120 | Which strings get which error; any other is, up to hex case, the text of its plaintext under its own IV |
| `Cbc.DecryptsExactly` | cbc.go:55-156 | A string decrypts to `p` if and only if, up to hex case, it is the encryption of `p` under some IV |
| `Cbc.RoundTrip` | cbc.go:55-120 | `DecryptCBC` inverts `EncryptCBC` for every plaintext, IV and key size |
| `Auto.DetectorsLoseNothing` | auto.go:27-70 | `OpenAuto` is `Open`, then `DecryptCBC`, then `ErrUnknownFormat`, for every key and string |
| `Auto.LooksLikeBox` | auto.go:46-55 | Taken for a box if and only if it decodes to at least 29 bytes, the first of them 1 |
| `Auto.LooksLikeCbc` | auto.go:59-70 | Taken for CBC if and only if it is hex of at least two whole blocks |
| `Auto.CbcTextIsNoBox` | auto.go:46-70 | CBC text always decodes as base64url, is never taken for a box, and always for CBC |
| `Auto.FirstDigit` | auto.go:46-55 | The first decoded byte is below 4 exactly when the first character is `A` |
| `AeadV1.BeginsWithA` | aead.go:124-129 | Every sealed text begins with `A` |
| `Auto.OpensBoxes` | auto.go:27-42 | `OpenAuto` returns the plaintext of every `Seal` output |
| `Auto.OpensCbc` | auto.go:27-42 | `OpenAuto` returns the plaintext of every `EncryptCBC` output, for all key sizes and any aad |
| `Migration.FakeDB.Migrate` | examples/migrate_cbc_to_gcm/main.go:60-87 | In any row order: the new table, the three counters as sizes of the sets of failed and unchanged rows, and their sum |
| `Migration.MigrateRow` | examples/migrate_cbc_to_gcm/main.go:61-86 | One row: error, skip or new text |
| `Migration.RowIsSealedAfresh` | examples/migrate_cbc_to_gcm/main.go:60-87 | Every row that opens, in either format, becomes the box of its plaintext under the nonce drawn for it |
| `Migration.MigratedRowOpens` | examples/migrate_cbc_to_gcm/main.go:60-87 | A row that goes through opens with plain `Open` to what `OpenAuto` read |
| `Migration.PlaintextSurvives` | examples/migrate_cbc_to_gcm/main.go:60-87 | A pass changes no row's plaintext, whether the row goes through or not |
| `Migration.PassesPreserve` | examples/migrate_cbc_to_gcm/main.go:60-87 | Any number of passes, failing anywhere: no row loses its plaintext, and a row that went through once opens with plain `Open` ever after |
| `KeyRing.NewKeyRing` | keyring.go:41-61 | Refusals; a new ring of one active key with a private copy |
| `KeyRing.KeyRing.Add` | keyring.go:65-86 | Ids of 1..64 bytes that are absent, with a 32-byte key, are added with it; the others are refused, in order; invariant kept; the stored buffer is fresh |
| `KeyRing.KeyRing.Remove` | keyring.go:91-101 | The active id and absent ids are refused; otherwise just this id goes, from both maps; invariant kept |
| `KeyRing.KeyRing.SetActive` | keyring.go:108-114 | Refusal; only the active id changes; invariant kept |
| `KeyRing.KeyRing.Seal` | keyring.go:118-134 | The frame under the active id and key; the ring is unchanged |
| `KeyRing.KeyRing.KidsActiveFirst` | keyring.go:194-203 | Every id exactly once, the active one first, in any order of the map |
| `KeyRing.KeyRing.Open` | keyring.go:139-188 | The result is that of `OpenIn` for some such order; the ring is unchanged |
| `KeyRing.AddThenWipe` | keyring.go:65-86 | A caller that wipes its key afterwards leaves the ring as it was |
| `KeyRingRuns.AddedStaysReadable` | keyring.go:65-188 | From a successful `Add`: what anybody seals under that key, with that id in the frame, opens in every later state until the id is removed |
| `KeyRingRuns.SuccessIs` | keyring.go:65-114 | When `Add`, `Remove` and `SetActive` succeed, and what the ring then holds |
| `KeyRingRuns.FrameIs` | keyring.go:118-134 | The sealed text byte by byte |
| `KeyRingRuns.OpenIsExactly` | keyring.go:139-183 | Which decoded bytes get which error, and what decides about the others |
| `KeyRingRuns.SealedStaysReadable` | keyring.go:41-188 | Whole-run readability: what is sealed opens in every later state, whichever id is active, as long as its id was not removed |
| `KeyRingRuns.RemovedIsUnreadable` | keyring.go:91-101 | While the id is absent: `ErrTampered`; if it comes back, its key then decides |
| `KeyRingRuns.RunStaysSound` | keyring.go:29-114 | Over every run: the active id has a key, ids are 1..64 bytes, keys 32 bytes |
| `KeyRingRuns.KeyStays` | keyring.go:65-101 | Over every run: the key of an id that is not removed never changes |
| `KeyRingRuns.OneChangeAtATime` | keyring.go:65-114 | What each operation can change; failed operations change nothing |
| `KeyRingRuns.RemovedStaysUnreadable` | keyring.go:91-183 | After a successful removal every later state answers `ErrTampered` to what was sealed under the id, until the id is added again |
| `KeyRingRuns.OpensOnlyWhatWasSealed` | keyring.go:139-188 | In every state of every run, whatever `Open` returns was sealed under a key the ring then has, for this aad, and the text is the frame of that box |
| `KeyRingRuns.HypothesesAreMet` | keyring.go:139-188 | A cipher, ring, log and text that meet these hypotheses, and the text opens |
| `KeyRingRuns.Dispatch` | keyring.go:159-183 | How a ring treats a frame that names an id, in every listing order |
| `KeyRingRuns.OpensExactlyItsKid` | keyring.go:159-183 | A version-3 frame opens if and only if it is the frame of a ring id around a box its key opens |
| `KeyRingRuns.KidIsNotBound` | keyring.go:171-183 | Two ids with the same key are interchangeable in a frame |
| `KeyRingRuns.FallbackIsSomeKey` | keyring.go:149-157 | A version-1 frame opens exactly when some key of the ring opens it; the active key has precedence |
| `KeyRingRuns.OrderDoesNotMatter` | keyring.go:148-157 | `Open` has one result for all map orders if and only if the active key opens the frame or all keys that open it agree on the plaintext |
| `KeyRingRuns.OldTextOpens` | keyring.go:149-157 | Version-1 text under any key of the ring opens |
| `KeyRingRuns.OneKeyRingIsOpen` | keyring.go:139-188 | A ring of one key is plain `Open` on everything but version-3 frames |
| `Envelope.ParseInvertsFrame` | kms.go:103-118 | Below 2^32 bytes no slice bound wraps, and the parts are found exactly for the bytes that `Seal` framed from them |
| `Envelope.FrameParses` | kms.go:84-118 | For frames of any size: the parts come back if and only if the wrapped key is shorter than 2^32 - 5 |
| `Envelope.ParsesExactly` | kms.go:98-118 | For bytes of any number: the parts are found exactly in what `Seal` frames from them with a wrapped key shorter than 2^32 - 5, and each refusal has its own condition |
| `Envelope.OpensExactly` | kms.go:98-131 | `Open` returns a plaintext if and only if the text holds a wrapped key that the KMS unwraps and a box that opens under it |
| `Envelope.RefusesExactly` | kms.go:98-123 | Which error for which bytes, and for a KMS that does not unwrap |
| `Envelope.PanicsExactly` | kms.go:109-118 | Exactly the inputs on which the slice bounds are reversed although the guard passes |
| `Envelope.PanicInput` | kms.go:109-118 | A text on which `Open` panics, whatever the cipher, the KMS, the key id and the aad |
| `Envelope.RoundTrip` | kms.go:67-131 | With any KMS that unwraps what it wrapped, `Open` inverts `Seal` |
| `Envelope.OpenReturns` | kms.go:98-131 | `Open` returns for every text below 2^32 bytes, whatever the KMS |
| `Envelope.Unwraps` | kms.go:180-203 | The in-memory KMS unwraps what it wrapped; size of a wrapped key |
| `Envelope.WrappedIs` | kms.go:180-194 | A wrapped key is the text of a box around the data key, character by character |
| `Envelope.UnwrapsExactly` | kms.go:168-203 | Unwrapping: unknown ids are refused as such; otherwise plain `Open` of the wrapped text under the stored key |
| `Envelope.AddedKeyOpens` | kms.go:158-203 | From `AddKey` on: an envelope whose data key is wrapped under the added key opens, until the id is given a different one |
| `Envelope.EnvelopeStaysOpenable` | kms.go:158-203 | An envelope opens after any keys are added, until its own key id is given a different key |
| `EnvelopeHeap.ZeroBytes` | kms.go:135-139 | The buffer is all zero |
| `EnvelopeHeap.SealThenWipe` | kms.go:72-94 | For a data key from any KMS: its buffer is all zero on every way out, and the text or error is that for the key it held |
| `EnvelopeHeap.OpenThenWipe` | kms.go:124-130 | The same for opening |
| `EnvelopeHeap.EnvelopeSealer.Seal` | kms.go:67-94 | On every way out, every data-key buffer the KMS handed out during the call is wiped, none of them is a stored key, and the stored keys are unchanged; the text or the error |
| `EnvelopeHeap.EnvelopeSealer.Open` | kms.go:98-131 | The same for opening, for every text; the result, a panic included, is that of `Envelope.Open` |
| `EnvelopeHeap.StaticKMS.AddKey` | kms.go:158-166 | Stores a private copy, or refuses |
| `EnvelopeHeap.StaticKMS.GenerateDataKey` | kms.go:180-194 | A fresh buffer, recorded as handed out, and its wrapping; errors in order |
| `EnvelopeHeap.StaticKMS.Decrypt` | kms.go:197-203 | A fresh buffer with the unwrapped key, recorded as handed out, or the error |
| `Timelock.IssueToken` | timelock.go:37-46 | Refusals, and the token for a clock reading and nonce |
| `Timelock.TokenIs` | timelock.go:37-46 | The token byte by byte; the expiry is the nanosecond of issue plus lifetime, divided by 10^9 and rounded down |
| `Timelock.VerifiesExactly` | timelock.go:53-66 | Every outcome, from what the box holds and the second the clock is in |
| `Timelock.Window` | timelock.go:37-66 | A token yields its payload exactly while the clock's second is before the expiry second, and is expired from then on |
| `Timelock.Lifetime` | timelock.go:37-66 | Never valid at or after T + D, always valid until T + D - 1s, once expired always expired |
| `Timelock.AliveAtIssue` | timelock.go:37-66 | A lifetime makes every token valid when it is issued, at whatever instant, if and only if it is at least one second |
| `Timelock.ShortestTtl` | timelock.go:41-62 | The rounding behind it: the expiry second is later than the current one at every instant if and only if the lifetime is at least a second |
| `Timelock.OnlyIssuedTokens` | timelock.go:53-66 | If the cipher accepts only what it sealed, a string verifies with a payload if and only if it decodes to a whole token issued for this aad, with that payload, that has not expired |
| `Timelock.BodyParts` | timelock.go:42-65 | Expiry and payload come back through the uint64 field, for negative seconds too |
| `Password.HashPassword` | password.go:61-77 | `$argon2id$v=19$m=65536,t=2,p=1$` with the salt and the key derived with time 2, memory 65536 and parallelism 1 to 32 bytes |
| `Password.ParsesExactly` | password.go:134-180 | A string is accepted, with given contents, if and only if it has five parts behind a leading `$`: algorithm, version 19, three costs within their variables, and two base64 texts that are not empty; all others get one error |
| `Password.LayoutIs` | password.go:119-131 | The text around any salt, hash and costs |
| `Password.DecimalIs` | password.go:119-131 | Decimal notation |
| `Password.VerifiesText` | password.go:90-108 | For any printed costs m, t and p: the password is derived with time t, memory m and parallelism p to as many bytes as are stored, and compared; a panic if t or p is zero |
| `Password.VerifiesDefaultText` | password.go:61-108 | For `m=65536,t=2,p=1`: time 2, memory 65536, parallelism 1 |
| `Password.ParseInvertsLayout` | password.go:119-180 | A printed hash parses back if and only if m, t < 2^32, p < 2^8 and neither salt nor hash is empty |
| `Password.SplitsLayout` | password.go:119-131 | Splitting at `$` finds the six printed segments, because no alphabet or digit contains it |
| `Password.ScansNumber` | password.go:151-161 | A printed decimal is scanned back unless it exceeds its variable |
| `Password.VerifiesStored` | password.go:90-108 | Under whatever costs are stored: a panic exactly when the time cost or the parallelism is zero, and otherwise comparison with the re-derived key |
| `Password.StoredDecides` | password.go:90-108 | For every string: a panic exactly when it parses with such a cost, an error exactly when it does not parse, whatever the password |
| `Password.VerifiesHashed` | password.go:61-108 | `VerifyPassword` accepts every `HashPassword` output for its password, another password only if it derives the same key, and never panics on one |
| `AuditChain.AuditLog.Append` | examples/audit_log_chain/main.go:52-66 | One more entry, signed over the previous MAC and its payload |
| `AuditChain.GoodIs` | examples/audit_log_chain/main.go:34-77 | An entry verifies if and only if its 32-byte MAC is that of the MAC before it and its four fields with a bar between them |
| `AuditChain.AuditLog.Verify` | examples/audit_log_chain/main.go:70-80 | Returns the least index that does not verify, or -1 |
| `AuditChain.AppendsVerify` | examples/audit_log_chain/main.go:52-80 | After any run of `Append`, `Verify` returns -1 and nothing else |
| `AuditChain.LastMacVouches` | examples/audit_log_chain/main.go:52-80 | Two verifying logs of one length with the same last MAC agree in payload and MAC at every index |
| `AuditChain.LastMacFixesLength` | examples/audit_log_chain/main.go:52-80 | Two verifying logs with the same last MAC have the same length and payloads, unless the first payload of one begins with a MAC of the other |
| `AuditChain.TamperEvidence` | examples/audit_log_chain/main.go:52-80 | For any other log over which no MAC is forged, if no signed messages collide and no first payload begins with a MAC: `Verify` returns the index of the first entry whose payload or MAC is not as it was signed there, and -1 exactly for the log itself and its cuts at the end |
| `AuditChain.FalseStartVerifies` | examples/audit_log_chain/main.go:34-80 | Why that needs first payloads that begin with no MAC: otherwise every entry after the first gives a one-entry log that verifies |
| `AuditChain.RewriteIsFound` | examples/audit_log_chain/main.go:70-80 | A rewritten payload is reported at its own index |
| `AuditChain.DroppedEntry` | examples/audit_log_chain/main.go:70-80 | A dropped entry is reported, at its index, if and only if it was not the last and its MAC differs from the one before it; otherwise, and after any cut at the end, the log verifies |
| `AuditChain.PayloadDetermines` | examples/audit_log_chain/main.go:34-41 | The payload of an entry pins its fields down if and only if the separator is in none of actor, action and resource |
| `AuditChain.Ambiguous` | examples/audit_log_chain/main.go:34-41 | Every entry with a separator in one of them has a double: other fields, same payload |
| `AuditChain.HypothesesAreMet` | examples/audit_log_chain/main.go:52-80 | A MAC and two different logs of two entries that meet the hypotheses of the results on last MACs, drops and tamper evidence, and a rewritten entry that meets those of `RewriteIsFound` and of tamper evidence |

## Left out

- The inside of AES, GCM, HMAC, SHA-256 and argon2, timing, randomness quality and probabilities: library
  calls, idealised as above.
- `aead_chacha20.go`, `asymmetric.go`, `ed25519.go`, `hkdf.go`, `password_bcrypt.go`, `random.go`, and the
  deprecated CBC wrappers: thin wrappers or repeats of the version-1 box.
- The mutex of `StaticKMS` and goroutines: each critical section is one map access, so operations are atomic.
- Error texts and wrapping: only the sentinel is kept.
- `StaticKMS.Encrypt`: a plain `Seal` under the stored key.
- Allocation: `OpenStream` reserves as many bytes as a length field asks for; running out of memory is not
  modelled, nor is the upper limit of GCM on one message.
- GoIO.Writer.Write: a write either takes all its bytes or reports an error with fewer; a writer that takes all
  of them and still reports an error is not modelled, nor one that refuses an empty write: an empty last chunk
  goes through even when there is no room left.
- Password.ScansNumber: the scanner does not skip blanks before a number, as `fmt.Sscanf` does; strings with
  blanks there are refused by the model and may be accepted by the code.
- AuditChain.AuditLog.Append: the time stamp is taken in the text form in which it is signed.
- Timelock.Window: the expiry second is an int64, as every Go clock reading is.
- Nothing was executed; all results are about the model.
