# Telang, verified

A Dafny 4.11 model of the parts of Telang that carry its promises, with proofs about them.

Telang is an S3 server whose disk is a message store. An object is encrypted in frames, uploaded as one
message, and described by a row in a metadata database; keys live in a file, one per bucket. Four parts are
modelled, each in the form its code has: readers, writers and services as classes whose methods update their
fields, parsers and printers as loops proved equal to functions.

1. **The framed AEAD codec.** `Bytes`, `Aead`, `Io`, `FrameFormat`, `Encrypter`, `Decrypter`, `RangeRead`,
   `Authenticity`, `ToyAead`, `FrameSizes`. Bytes are bit-vectors, nonces are really xored. The AEAD is a pair of function values with
   the contract "what was sealed opens, and only what was sealed opens" (`Aead.Correct`, shown to be
   satisfiable together with the hypotheses of the tamper theorems). The streaming encrypter and decrypter
   keep their partial-drain state; what they deliver over any succession of buffers is compared with recursive
   definitions of the sealed blob (`FrameFormat.Sealed`) and of opening one (`Decrypting.OpenBlob`).
2. **The object store.** `Environment`, `KeyStore`, `Metadata`, `Backend`, `Uploads`, `ObjectRows`, `Service`,
   `Requests`, `Handlers`, `Runs`. Every statement, file operation and upload may fail, and the code's own rollback runs. Every call
   takes a parameter `calm`: if it is true, nothing outside the service fails while the call runs, and its
   contract then gives the exact answer; if it is false, anything may, and a success is still given only where
   the exact answer is one. What every call keeps is `Service.Valid`, a conjunction of predicates on values:
   every object row leads to a live message of its own, sealed under the key now stored for its bucket
   (`ObjectRows`); every bucket row has a key; cached ciphers are those of the stored keys; every part row
   describes the last acknowledged bytes, and so does its file unless the part is torn; an open upload has its
   row, its directory, and a row and a file for every acknowledged part (`Uploads`). `Handlers` has the request
   handlers with their own checks. `Runs` compares every reply of theirs in a run, with its error, body, ETag,
   content type and page of a listing, with a plain state that the requests and replies before it determine
   (`Requests`).
3. **Listing.** `KeyOrder`, `ObjectTable`, `RollUp`, `Listing`. One page by batches with a cursor and a set of
   seen prefixes, and a client that follows continuation tokens, against one pass over the sorted keys. The keys
   are those of the store's state, in order (`ObjectTable.KeysIn`).
4. **Signature Version 4 texts.** `Text`, `Escape`, `Sorting`, `CanonicalQuery`, `HeaderText`,
   `CanonicalRequest`, and for chunked bodies `ChunkFormat`, `ChunkReader`, `ChunkAuthenticity`,
   `UnsignedChunkReader`. `RequestExample` is one request with its whole text. `SignedPut` puts the chunk reader
   in front of the store. `RangeHeader` does for the Range header what these modules do for the signed texts.

`dafny verify dfyconfig.toml` checks everything.

Some shapes recur. A lemma whose name ends in `Means` or `Unfolds` only states a definition for proofs that
hide it; those with a row below, and those that end in `Example` or `Examples`, say in terms of inputs and
literals alone what a definition that many theorems share comes to. `hide` statements keep definitions out of
proofs that do not need them. `{:induction false}` marks lemmas whose body is the induction.

## What the code does that its documentation does not say

- The signed text has one line feed more than the canonical request of AWS Signature Version 4: the header
  block ends in a line feed, is joined with an empty element and then with the list of signed headers
  (`internal/sigv4/sigv4.go:322-330`). `CanonicalRequest.OneLineFeedMoreThanAws` proves that the two texts
  never agree. The unambiguity theorem is about the text the code signs.
- `ListObjects` compares `substr(key, 1, n)` with the prefix, where n counts bytes and `substr` counts
  characters. `ObjectTable.SelectIsWantedIffAscii` says exactly when the listing is right all the same.
- `parseRange` refuses a range that mentions a number of 2^63 or more, which RFC 9110 would clamp.
  It also accepts a sign before a number and wants the unit in lower case, which the RFC does not. For every
  header text, `RangeHeader.AgreesWithRfc` has the exact condition; `RangeHeader.Disagreements` and
  `RangeHeader.HugeLastPositionIsRefused` are instances.
- Section 14.1.2 of RFC 9110 also has lists of ranges. `parseRange` refuses these, as a server may, and the
  comparison takes them as selecting nothing.
- `DecryptRange` takes the frame size from the header, which nothing authenticates.
  `FrameSizes.RangesRightIffHarmless` says for which frame sizes there, and which recorded sizes, every range
  read inside the plaintext is right whatever else was done to the blob; `FrameSizes.RightAtEverySize` and
  `FrameSizes.RightAsRecorded` put it in closed form, for every recorded size and for the object's own. With
  another frame size a genuine frame may be written at a wrong position without an error
  (`FrameSizes.SmallerFrameSizeMisplaces`). With the recorded one, what is written is right
  (`Authenticity.TamperedRangeIsPrefix`).
- Where `RangeRun` says `SliceOutOfRange`, the code slices a frame out of range, which in Go is a panic of the
  goroutine that feeds the reply, not an error that is reported. It cannot happen for a range inside the
  plaintext with the recorded frame size, or with any that is harmless.
- Two streaming uploads whose requests are signed alike (the same canonical request in the same second)
  share their seed signature, and the reader of either accepts the other's body as complete
  (`ChunkAuthenticity.EqualRequestsExchange`). `ChunkAuthenticity.DeliveredIsSignedPrefix` covers this case;
  `ChunkAuthenticity.DeliveredIsOwnIffNoneGoesFurther` says exactly when what is delivered is the upload's own.
- A blob cut at a frame boundary, and a chunked body cut anywhere but strictly inside a chunk's data, end as
  cleanly as whole ones: `Authenticity.CleanEndIsCompleteIffFullSize`, `ChunkFormat.CutBody`.
- A part upload whose row cannot be written after its file was renamed into place fails, but leaves a file
  that its row does not describe. Completing the upload then stores what is on disk, cut to the recorded total,
  under the ETag of the acknowledged bytes. Such parts are tracked as "torn", with the bytes that replaced them;
  `Runs.CompletedUpload` says of whole runs when the stored bytes are the acknowledged ones all the same,
  `Uploads.EqualSizesTearPartByPart` says it part by part, and `Uploads.TornPartShiftsTheNext` is an instance.
- A common prefix may be repeated at the start of the next page. `Listing.ConsecutivePages` says exactly when,
  `Listing.PrefixShownTwice` shows it, and `Listing.ListAll` says that such repetitions are all that is wrong.
- The listing handler answers "no such bucket" to any failure of its first look-up, and so does the handler
  that creates multipart uploads.
- A bucket whose key could not be removed from the keys file cannot be created again: `CreateBucket` answers
  "already owned" whenever a key is stored.

## Model

| member | source | states |
|---|---|---|
| FrameFormat.NewCipher | internal/crypto/crypto.go:47-66 | a cipher is refused exactly for frame sizes above 2^30, and otherwise has the frame size configured, or 65536 if none is |
| FrameFormat.CiphertextSizeIsLayoutSize | internal/crypto/crypto.go:72-86 | the closed form equals the length of the layout counted frame by frame, for every plaintext and frame size |
| FrameFormat.SealedHasCiphertextSize | internal/crypto/crypto.go:110-114 | the blob of every plaintext is exactly `CiphertextSize` bytes long |
| FrameFormat.CiphertextSizeIncreasing | internal/crypto/crypto.go:72-86 | a longer plaintext always has a longer blob |
| FrameFormat.CiphertextSizeFitsInt64 | internal/crypto/crypto.go:72-86 | no step of the computation overflows int64 for plaintexts up to 2^58 bytes at any admissible frame size |
| FrameFormat.CapacityInvertsSize | internal/crypto/crypto.go:72-86 | `CiphertextSize` has a computable inverse |
| FrameFormat.AdmissionIsThreshold | internal/s3api/service.go:73-76 | admitting by ciphertext size is admitting exactly the plaintexts up to one computable size |
| FrameFormat.SizeExamples | internal/crypto/crypto.go:72-86 | 17 bytes of header and 16 for every frame's tag, at sizes 0, 65536 and 65537 |
| FrameFormat.HeaderLayout | internal/crypto/crypto.go:127-131 | the header byte by byte: version 1, base nonce, frame size most significant byte first |
| FrameFormat.AadIsIndex | internal/crypto/crypto.go:104-108 | the associated data is the index modulo 2^64, read most significant byte first |
| FrameFormat.NonceIsBaseAndIndex | internal/crypto/crypto.go:88-102 | the nonce byte by byte: four of the base nonce, and eight xored with the index's |
| FrameFormat.DeriveFrameNonce | internal/crypto/crypto.go:89-102 | the xor loop computes the base nonce with the big-endian index xored into its low eight bytes |
| FrameFormat.NoncesDistinctWithinObject | internal/crypto/crypto.go:88-102 | under one base nonce, different uint64 indices have different nonces, as section 8 of NIST SP 800-38D requires |
| FrameFormat.NonceAndAadNameTheFrame | internal/crypto/crypto.go:88-108 | nonce and associated data together determine base nonce and index |
| FrameFormat.NoncesAloneMayCoincide | internal/crypto/crypto.go:88-102 | nonces alone do not: two objects can share one |
| Encrypting.ProducesFrames | internal/crypto/crypto.go:157-227 | a source that is long enough yields exactly the sealed frames of the declared plaintext |
| Encrypting.ShortSourceProducesLess | internal/crypto/crypto.go:110-114 | a source that is too short never yields as many bytes as the blob would have |
| Encrypting.Encrypter.constructor | internal/crypto/crypto.go:127-141 | what a new encrypter will deliver is the sealed blob of the next `plaintextSize` bytes of its source |
| Encrypting.Encrypter.NextFrame | internal/crypto/crypto.go:196-227 | seals exactly the next frame still due; fails only at the end or on a short source; takes from the source what it takes off `remain` |
| Encrypting.Encrypter.FillFrames | internal/crypto/crypto.go:169-194 | the read loop behind the header copies exactly the next frame bytes and terminates |
| Encrypting.Encrypter.Read | internal/crypto/crypto.go:157-194 | fills any buffer with exactly the next bytes of the blob; a clean end of file only for a source that was long enough |
| Encrypting.Encrypter.Drain | internal/crypto/crypto.go:157-194 | for every list of buffer sizes, zero and header-splitting ones included, the concatenated reads are the blob, cut where the sizes say |
| Encrypting.CopyN | internal/crypto/crypto.go:110-114 | draining a number of bytes succeeds exactly if the stream has that many, and gives its first ones |
| Decrypting.OpenRunOfFrames | internal/crypto/crypto.go:296-322 | opening sealed frames one by one gives the plaintext and a clean end, for empty, aligned and ragged plaintexts |
| Decrypting.HeaderRoundTrip | internal/crypto/crypto.go:127-131 | reading a written header gives back base nonce and frame size, for every frame size of four bytes, and accepts it exactly between 1 and 2^30 |
| Decrypting.OpenBlobOfSealed | internal/crypto/crypto.go:229-322 | opening a blob gives its plaintext and a clean end, with the frame size taken from the header |
| Decrypting.NewDecrypter | internal/crypto/crypto.go:232-265 | accepts exactly well-formed headers, reports which check failed, and then has the whole plaintext ahead |
| Decrypting.Decrypter.NextFrame | internal/crypto/crypto.go:296-322 | opens exactly the next frame; any error is the stop of the run that was ahead, and leaves the position the run stopped in |
| Decrypting.Decrypter.Read | internal/crypto/crypto.go:267-294 | fills any buffer with exactly the next plaintext bytes, with errors reported as the code does: end of file on its own, others together with the bytes before them |
| Decrypting.Decrypter.Drain | internal/crypto/crypto.go:267-294 | for every list of buffer sizes the reads are the plaintext, cut where the sizes say |
| Decrypting.CopyAll | internal/s3api/handlers.go:151-153 | reading to the end terminates with the whole plaintext up to the first stop, in the position that stop leaves |
| RangeRead.FramesLie | internal/crypto/crypto.go:348-372 | in a body that decrypts, the stretch at a frame's computed offset opens to the plaintext at the frame's computed start |
| RangeRead.DecryptRange | internal/crypto/crypto.go:330-388 | for a range inside the plaintext: no error, exactly `plain[start..end+1]` written, and exactly the header and the frames overlapping the range fetched; on any other blob, exactly the bytes and the error of `RangeRun` |
| RangeRead.WriteFrames | internal/crypto/crypto.go:351-386 | the loop writes the parts of the overlapping frames up to the first error, and fetches each stretch once, in order |
| RangeRead.RangeOfDecryptable | internal/crypto/crypto.go:330-388 | of a blob that decrypts, every range inside the plaintext is selected exactly, across frame boundaries |
| RangeRead.TruthfulRangeIsPrefix | internal/crypto/crypto.go:330-388 | of a blob whose stretches open to nothing but the plaintext's frames, what a range read writes is a prefix of the range, all of it without an error, ranges beyond the end included; inside the plaintext no slice is out of range |
| RangeRead.OverlappingInsideBlob | internal/crypto/crypto.go:351-365 | one fetch for every overlapping frame, each longer than a tag and inside the blob |
| Authenticity.OpenedFrameIsGenuine | internal/crypto/crypto.go:312-317 | under an ideal AEAD a stretch that opens as frame i of a base nonce is frame i of the one object sealed with it |
| Authenticity.ReadThrough | internal/crypto/crypto.go:267-322 | a reader that carries on over any number of errors, with buffers of any sizes, hands out exactly what `Released` says |
| Authenticity.ReadTampered | internal/crypto/crypto.go:232-322 | of whatever blob, all that a reader hands out over however many errors is a prefix of the one plaintext sealed under the header's base nonce |
| Authenticity.TamperedRangeIsPrefix | internal/crypto/crypto.go:330-388 | the same of range reads, whatever was changed but the header's frame size: a prefix of the range asked for, all of it without an error, and no slice out of range inside the plaintext |
| FrameSizes.RangesRightIffHarmless | internal/crypto/crypto.go:338-386 | for every object, header frame size and recorded size: all range reads inside the plaintext, of every unforged blob, are a prefix of the range, complete without an error, exactly if every frame that fits the stretch where it is looked for begins with what the plaintext has there |
| FrameSizes.RightAtEverySize | internal/crypto/crypto.go:338-386 | they are right whatever size is recorded exactly if the header has the object's frame size, or the object has one frame, or the header's is too small for the last frame, or equals its length where the bytes agree |
| FrameSizes.RightAsRecorded | internal/crypto/crypto.go:338-386 | the same with the object's own recorded size: a smaller frame size is harmful only if it is the last frame's length and the bytes differ, a larger one only by a coincidence of sizes |
| FrameSizes.OutOfPlaceIsMisread | internal/crypto/crypto.go:351-386 | under every correct AEAD, a genuine frame that fits out of place is read as a byte inside the plaintext, wrongly and without an error |
| FrameSizes.SmallerFrameSizeMisplaces | internal/crypto/crypto.go:346-386 | an instance: 7 8 9 sealed with frames of two, one in the header, recorded size 52; the byte at position 1 is read as 9 |
| ToyAead.WitnessReleased | internal/crypto/crypto.go:296-322 | the hypotheses of the tamper theorems hold together of an AEAD, an object of two frames and its blob, which is released to its end |
| Authenticity.TamperedBlobReleasesPrefix | internal/crypto/crypto.go:251-322 | whatever blob is served, and however often its reader carries on after errors, what is released is a prefix of the one plaintext sealed under the header's base nonce |
| Authenticity.CleanEndIsCompleteIffFullSize | internal/crypto/crypto.go:296-311 | a clean end means the whole object exactly if the blob has the recorded size or the object is empty |
| Authenticity.CutAtFrameBoundaryEndsCleanly | internal/crypto/crypto.go:296-302 | a proper prefix of a blob that ends cleanly all the same |
| KeyStore.Store.Create | internal/keys/keys.go:86-106 | adds a key exactly if there was none and the file could be written; memory and disk agree either way |
| KeyStore.Store.Remove | internal/keys/keys.go:108-122 | removes the key, or puts it back if the file could not be written; memory and disk agree either way |
| Metadata.Store.DeleteBucket | internal/metadata/metadata.go:169-191 | removes exactly the named bucket, and only when no object row is in it |
| Metadata.Store.PutObject | internal/metadata/metadata.go:195-219 | inserts or overwrites exactly one row, or changes nothing |
| Metadata.Store.DeleteObject | internal/metadata/metadata.go:317-347 | removes exactly one row and returns it, or changes nothing |
| Metadata.Store.UpsertPart | internal/metadata/metadata.go:396-403 | inserts or overwrites exactly one part row, or changes nothing |
| Metadata.Store.DeleteMultipart | internal/metadata/metadata.go:376-394 | removes one upload and exactly its parts, or changes nothing |
| Metadata.Store.ListParts | internal/metadata/metadata.go:458-475 | a part number is listed exactly if the upload has a row for it, with that row |
| Service.Service.CreateBucket | internal/s3api/service.go:197-215 | key and bucket row are added together or the row not at all; refused whenever a key is stored; succeeds otherwise while calm |
| Service.Service.DeleteBucket | internal/s3api/service.go:217-233 | only an empty, existing bucket; its key goes too unless the keys file cannot be written; the exact answer while calm; the invariant holds in any case |
| Service.Service.CipherFor | internal/s3api/service.go:241-267 | the cipher of the key now stored for the bucket, cached or not; refused as "no such bucket" exactly without a key |
| Service.Service.SealAndStore | internal/s3api/service.go:78-91 | a successful upload is the sealing of exactly the next `size` bytes; while calm it succeeds exactly if the source has as many |
| Service.Service.PutObject | internal/s3api/service.go:61-111 | success: the map gets exactly the next `size` bytes under the key, with their MD5 as ETag; failure: map and rows unchanged; while calm the answer is determined by bucket, sizes and source |
| Service.Service.GetObject | internal/s3api/service.go:114-139 | success: exactly the bytes in the map, and the object's row; failure: what was sent is a prefix of them; while calm it succeeds exactly for keys in the map |
| Service.Service.GetObjectRange | internal/s3api/service.go:142-169 | exactly the slice of the bytes in the map, or nothing; while calm it succeeds exactly for ranges inside them |
| Service.Service.DeleteObject | internal/s3api/service.go:182-195 | the key leaves the map, whether or not the message could be deleted; succeeds while calm |
| ObjectRows.RowDecrypts | internal/s3api/service.go:130-138 | a row's message decrypts, under its bucket's key, to the row's bytes |
| ObjectRows.BrokenDownloadReleasesPrefix | internal/crypto/crypto.go:296-322 | a download that breaks off anywhere releases a prefix of the plaintext |
| Service.Service.CreateMultipart | internal/s3api/multipart.go:154-177 | a fresh upload row with its directory, without acknowledged parts, or no row; other uploads' files untouched |
| Service.Service.ReceivePart | internal/s3api/multipart.go:204-213 | accepts a body of exactly the declared size, neither shorter nor longer |
| Service.Service.UploadPart | internal/s3api/multipart.go:179-237 | success: file, row and ETag are those of exactly the bytes sent; failure: nothing acknowledged changes, and at most this part becomes torn, with the bytes sent; while calm the answer is determined by the upload, the sizes and the body |
| Uploads.CollectedStep | internal/s3api/multipart.go:271-288 | the loop's size, digest bytes and files stay those of the named parts' acknowledged bytes and of what is on disk for them |
| Service.Service.CollectParts | internal/s3api/multipart.go:259-288 | accepts only parts that have rows with the ETags named, and has their sizes, digests and files; while calm, with every file in place, it succeeds exactly for such parts |
| Service.Service.CompleteMultipart | internal/s3api/multipart.go:123-333 | success: strictly ascending parts, each acknowledged with the ETag named, and the map gets what is on disk for them in that order, cut to the total of the acknowledged sizes, with that total and the combined ETag of the acknowledged bytes; failure: nothing changes; while calm the answer for an open upload is determined |
| Uploads.EqualSizesTearPartByPart | internal/s3api/multipart.go:222-235 | if failed uploads sent as many bytes as the acknowledged ones, what is stored is what was acknowledged exactly if each part on disk is |
| Uploads.CombinedOfTwo | internal/s3api/multipart.go:271-312 | the ETag of an upload of two parts is the MD5 of both MD5s in the order named, and their number |
| Uploads.TornPartShiftsTheNext | internal/s3api/multipart.go:271-288 | of two parts with one torn, the object begins with the replacing bytes and loses the end of the other part, under the acknowledged ETags |
| Uploads.TornPartsAreServed | internal/s3api/multipart.go:222-235 | for every list of parts: what is stored is what was acknowledged exactly if that is a prefix of what is on disk, all parts put together |
| Service.Service.AbortMultipart | internal/s3api/multipart.go:335-345 | the upload and exactly its parts go, or the rows stay; other uploads' files untouched |
| Handlers.Serve | internal/s3api/handlers.go:71-188 | serves any one request: the reply is right by the state before it, and the state after it is what request and reply make of that; the size and part number checks of the handlers come first |
| Handlers.ServeList | internal/s3api/list.go:51-157 | a listing replies with the page of the bucket's keys in the state, in order, at most 1000 items; "no such bucket" exactly for buckets that are not there, while calm |
| Runs.Run | internal/s3api/handlers.go:51-188 | over every run of requests, restarts and failures, every reply of the handlers (error, body, ETag, content type, page) is right by the state that the requests and replies before it make, with the exact answer to every request while calm, and no success at any time that is not that answer; the store's own state is that state throughout |
| Runs.RunNew | internal/s3api/service.go:46-56 | the same of all replies of every run of a new store, where that state begins empty |
| Runs.CalmBuckets | internal/s3api/service.go:197-233 | while calm a bucket is made exactly if it is not there and was not left half made, and removed exactly if it is there and empty |
| Runs.CalmObjects | internal/s3api/handlers.go:133-153 | while calm an object is read exactly if it is there, always removed, and a bucket listed exactly if it is there |
| Runs.CalmUploads | internal/s3api/multipart.go:34-48 | while calm an upload is begun exactly if its bucket is there, and an open one given up |
| Runs.CalmCompletion | internal/s3api/multipart.go:123-333 | while calm an open upload without torn parts, within the ceiling, is completed exactly if its parts are named in ascending order, each acknowledged with the ETag named |
| Runs.LastWriteWins | internal/s3api/service.go:61-111 | an object is a certain version (bytes, ETag, content type) exactly if the last request that touched it wrote that |
| Runs.ReadReturnsLastWrite | internal/s3api/service.go:113-139 | every reply to a successful full read delivers the version that the last successful write before it made |
| Runs.AcknowledgedWriteIsReadBack | internal/s3api/service.go:58-139 | once a write is acknowledged, every reply to a full read while calm delivers its version until the object is touched again: of a plain upload the declared number of its bytes, their MD5 and its content type |
| Runs.AcknowledgedWriteIsReadInParts | internal/s3api/handlers.go:156-188 | and every reply to a read with a Range header that selects something delivers exactly that slice |
| Runs.ListedAreStored | internal/s3api/list.go:91-157 | a page shows as keys exactly the stored keys in its scope without a delimiter behind the prefix, and as common prefixes exactly the others through their first delimiter |
| Runs.ListedInOrder | internal/s3api/list.go:91-157 | its keys are in order, and it has at most as many items as asked for and 1000, and as many if it is truncated |
| Runs.ListedIffWritten | internal/s3api/list.go:91-157 | in a run from an empty store, a key in scope is listed exactly if a successful write was the last successful request to touch it |
| Runs.AckedIsLastUpload | internal/s3api/multipart.go:179-237 | the acknowledged bytes of a part are certain bytes exactly if its last successful upload, behind the last creation of the upload, sent them |
| Runs.TornIsLastFailure | internal/s3api/multipart.go:222-235 | a part is torn, with certain bytes on disk, exactly if the last event about it was an upload of these that failed behind the rename |
| Runs.DisorderIsRefused | internal/s3api/multipart.go:50-58 | a completion that names a part twice or out of order, and a part number outside 1 to 10000, are refused |
| Runs.GoodPartIsTaken | internal/s3api/multipart.go:179-237 | a part numbered 1 to 10000 of an open upload, not too large, is taken while calm exactly if its body has the declared size and ends cleanly |
| Runs.CompletedUpload | internal/s3api/multipart.go:239-333 | a reply that an upload is complete means strictly ascending parts with acknowledged ETags; the version made is a prefix of what is on disk with the acknowledged length, and is what was acknowledged exactly if that is a prefix of what is on disk, so whenever no part is torn |
| RangeHeader.AcceptedBoundsLieInside | internal/s3api/handlers.go:192-238 | whatever the header, accepted bounds satisfy 0 <= start <= end < size |
| RangeHeader.ParsePrinted | internal/s3api/handlers.go:192-238 | parsing undoes printing for every form and all numbers below 2^63: clamped, suffix and open ranges as in section 14.1.2 of RFC 9110 |
| RangeHeader.PrintedAgreesIffNumbersFit | internal/s3api/handlers.go:222-236 | of printed specifications, agreement with RFC 9110 holds exactly when the numbers fit or the range selects nothing |
| RangeHeader.ParsedIsLoose | internal/s3api/handlers.go:192-238 | every header text: accepted exactly with the unit in lower case and numbers that fit, and then as it reads with signs allowed |
| RangeHeader.AgreesWithRfc | internal/s3api/handlers.go:192-238 | every header text: the result is that of section 14.1.2 of RFC 9110 exactly if the header selects nothing even with signs allowed, or the unit is in lower case and the numbers fit just when there is no sign |
| RangeHeader.Disagreements | internal/s3api/handlers.go:192-238 | instances: a signed number is accepted, a unit in upper case is refused |
| RangeHeader.HugeLastPositionIsRefused | internal/s3api/handlers.go:227-232 | an instance of the disagreement |
| RangeHeader.GetObjectRange | internal/s3api/handlers.go:156-188 | an accepted header gives exactly end-start+1 bytes, equal to that slice of the stored object; while calm it is refused exactly when the header is |
| KeyOrder.LessMeans | internal/metadata/metadata.go:251-256 | the order: a proper prefix first, else by the first different character, smaller code first |
| KeyOrder.PrefixBetween | internal/metadata/metadata.go:251-256 | keys that share a prefix are contiguous in the listing order |
| ObjectTable.MatchesExactly | internal/metadata/metadata.go:254-257 | the SQL prefix condition selects the prefix for ASCII prefixes and only the equal key for all others |
| ObjectTable.SelectIsWantedIffAscii | internal/metadata/metadata.go:242-257 | listing by prefix is right exactly if the prefix is ASCII or no key behind the start properly extends it |
| ObjectTable.SelectFromRow | internal/metadata/metadata.go:253-256 | asking again from a returned key gives exactly the rows behind it |
| ObjectTable.KeysIn | internal/metadata/metadata.go:251-256 | the keys of the bucket's rows, each once, strictly ascending |
| ObjectTable.AscendingUnique | internal/metadata/metadata.go:251-256 | and there is only one such list |
| ObjectTable.ListObjects | internal/metadata/metadata.go:245-283 | while calm the query succeeds; then the first `limit` rows, and `more` exactly if there are others |
| RollUp.GroupMeans | internal/s3api/list.go:114-131 | a key under the prefix is shown as itself exactly if no delimiter stands in it from the prefix's end on, and otherwise rolls up to the key through the first one, also one right behind the prefix |
| RollUp.FolderWithoutSlash | internal/s3api/list.go:115-124 | an instance: photos/a.jpg under the prefix photos rolls up to photos/ |
| RollUp.GroupContiguous | internal/s3api/list.go:114-131 | keys that roll up to one common prefix are contiguous, for every non-empty delimiter |
| RollUp.GroupOfExtension | internal/s3api/list.go:115-117 | every key that starts with a rolled-up prefix rolls up to that prefix |
| RollUp.GroupsOrdered | internal/s3api/list.go:115-122 | different common prefixes are ordered as their keys and neither extends the other |
| RollUp.CollapsePieces | internal/s3api/list.go:97-149 | collapsing repeated prefixes piece by piece and again is collapsing the whole |
| Listing.SeenIsLast | internal/s3api/list.go:97-121 | a prefix is in `seenPrefixes` exactly if it is the last row's |
| Listing.RolledIsCollapsed | internal/s3api/list.go:112-149 | the pass with a set shows what the pass that compares neighbours shows |
| Listing.CommonPrefixesAscend | internal/s3api/list.go:118-124 | the common prefixes of a roll-up are strictly ascending and none extends another |
| Listing.PageShowsItsRows | internal/s3api/list.go:102-149 | a page is the roll-up of the rows it went through and the first `max` items of the whole roll-up |
| Listing.KeyHasMoreAfter | internal/s3api/list.go:159-162 | while calm, "yes" exactly if a matching key lies behind; otherwise "yes" only then |
| Listing.NextBatch | internal/s3api/list.go:102-111 | asked for at least one row, a query gives the first rows behind the cursor, and `more` exactly if there are others; while calm it succeeds |
| Listing.TakeBatch | internal/s3api/list.go:112-145 | takes a whole batch; the page fills up only on the batch's last row |
| Listing.ListPage | internal/s3api/list.go:91-154 | while calm there is a page; independent of batch boundaries it has the first `maxKeys` items from the start on, truncated exactly if matching rows lie behind the rows gone through, with the last of these as the token; the loop terminates, and never asks for fewer than one row |
| Listing.PageMembers | internal/s3api/list.go:102-154 | a key is on the page exactly if it is gone through and has no delimiter behind the prefix; a common prefix exactly if it is such a key through its first delimiter |
| Listing.PageIsFullOrLast | internal/s3api/list.go:124-154 | a page has at most `maxKeys` items, and that many if it is truncated |
| Listing.CutsGroupMeans | internal/s3api/list.go:114-131 | a group is cut exactly if the rows on both sides roll up to the same common prefix |
| Listing.StretchesJoinIffNoGroupIsCut | internal/s3api/list.go:112-145 | the roll-ups of two stretches of rows put together are that of all rows exactly if the cut is not within one common prefix |
| Listing.ConsecutivePages | internal/s3api/list.go:91-154 | a page and the page from its token put together are the roll-up of their rows exactly if the token does not cut a common prefix in two, and otherwise the second begins with the first's last item |
| Listing.PrefixShownTwice | internal/s3api/list.go:124-154 | an instance: keys a/1 and a/2, one item a page, both pages show a/ |
| Listing.ListAll | internal/s3api/list.go:58-154 | following tokens over an unchanged bucket terminates, while calm always with a whole listing: each page is the page from the token before it and the last is not truncated; their contents are all keys without a delimiter behind the prefix, each once and in order; their common prefixes, repeated neighbours dropped, are exactly those that matching keys roll up to |
| Escape.EscapeMeans | internal/sigv4/sigv4.go:460-476 | every byte: letters, digits and - _ . ~ stay, a slash where it is left alone, and all else is a percent sign and two hexadecimal digits in upper case |
| Escape.UnescapePercent | internal/sigv4/sigv4.go:362-383 | two hexadecimal digits in either case behind a percent sign are the byte they denote |
| Escape.UnescapeMeans | internal/sigv4/sigv4.go:362-383 | a plus sign is a space, and what is not behind a percent sign stays |
| Escape.UnescapeMalformed | internal/sigv4/sigv4.go:362-383 | a percent sign without two hexadecimal digits behind it is an error |
| Escape.UnescapeOfEscape | internal/sigv4/sigv4.go:460-476 | unescaping an escaped byte string gives the string back |
| Escape.EscapeInjective | internal/sigv4/sigv4.go:460-476 | different byte strings escape differently |
| Escape.EscapedIsFree | internal/sigv4/sigv4.go:457-476 | escaped text has no character but unreserved ones, percent signs and, if left alone, slashes |
| Escape.Escaped | internal/sigv4/sigv4.go:460-476 | the byte loop computes the escape function |
| Sorting.SortIsCanonical | internal/sigv4/sigv4.go:384-389 | sorting by name, then value, forgets the order and nothing else |
| Sorting.SortStringsSorts | internal/sigv4/sigv4.go:402-435 | sorting the signed header names rearranges them, into ascending order |
| CanonicalQuery.CanonicalQueryRaw | internal/sigv4/sigv4.go:353-400 | the decode, escape, sort and print loops compute the canonical query function |
| CanonicalQuery.PartMeans | internal/sigv4/sigv4.go:362-383 | a part is split at its first equals sign, and is a name without a value if it has none |
| CanonicalQuery.PairMeansUnescaped | internal/sigv4/sigv4.go:362-383 | names and values are unescaped, and stand as they are if they cannot be |
| CanonicalQuery.CanonicalOrder | internal/sigv4/sigv4.go:384-389 | the printed pairs are ordered by name, and by value where names are equal, byte by byte |
| CanonicalQuery.PairRoundTrip | internal/sigv4/sigv4.go:362-383 | a printed pair reads back as the decoded pair, and as one part |
| CanonicalQuery.PartsOfCanonical | internal/sigv4/sigv4.go:384-400 | the canonical query's parts are the escaped pairs in ascending order |
| CanonicalQuery.CanonicalKeepsPairs | internal/sigv4/sigv4.go:353-400 | canonicalising keeps the decoded pairs, each as often, malformed escapes included |
| CanonicalQuery.SameCanonicalIffSamePairs | internal/sigv4/sigv4.go:353-400 | two queries canonicalise alike exactly if they have the same decoded pairs, each as often |
| CanonicalQuery.CanonicalIdempotent | internal/sigv4/sigv4.go:353-400 | canonicalising twice is canonicalising once |
| CanonicalQuery.OrderAndEmptyPartsDoNotMatter | internal/sigv4/sigv4.go:360-364 | rearranging the parts and inserting empty ones changes nothing |
| CanonicalQuery.StripQueryParam | internal/sigv4/sigv4.go:277-303 | the loop computes the strip function |
| CanonicalQuery.StripKeepsTheRest | internal/sigv4/sigv4.go:277-303 | exactly the parts of that name go, and the others keep their order |
| CanonicalQuery.NamedMeans | internal/sigv4/sigv4.go:285-297 | a part has an ASCII name exactly if its decoded name is that name when both are in small letters |
| CanonicalQuery.StrippedParts | internal/sigv4/sigv4.go:277-303 | exactly the parts whose decoded name, in small letters, is the name in small letters are dropped |
| CanonicalQuery.AlgorithmStays | internal/sigv4/sigv4.go:277-303 | an instance: X-Amz-Signature goes, and X-Amz-Algorithm beside it stays |
| CanonicalQuery.StripOfSigned | internal/sigv4/sigv4.go:259-260 | wherever the signature was inserted, stripping leaves, in order, the query's parts whose decoded name in small letters is not x-amz-signature |
| CanonicalQuery.StripUndoesSigningIffNameUnused | internal/sigv4/sigv4.go:259-303 | stripping undoes the insertion, as far as signing can tell, exactly if no parameter of the query has a decoded name that is x-amz-signature in small letters |
| HeaderText.TrimSpaceMeans | internal/sigv4/sigv4.go:437-455 | trimming takes the white space off both ends and nothing else |
| HeaderText.SignedForm | internal/sigv4/sigv4.go:437-455 | any words, any gaps of spaces and tabs between them and any white space around them are signed as the words with one space each |
| HeaderText.TrimmedAll | internal/sigv4/sigv4.go:437-455 | the loop computes the trim function |
| HeaderText.TrimAllJoinsWords | internal/sigv4/sigv4.go:437-455 | the signed form of a value is its words with one space between them |
| HeaderText.SameTrimmedIffSameWords | internal/sigv4/sigv4.go:437-455 | two values are signed alike exactly if they have the same words |
| CanonicalRequest.CanonicalUri | internal/sigv4/sigv4.go:333-349 | escaping segment by segment and adding a slash is escaping the absolute path with slashes left alone |
| CanonicalRequest.NameWithSpaces | internal/sigv4/sigv4.go:402-408 | white space around a signed header's name is taken off, and its capitals are made small |
| CanonicalRequest.CanonicalHeaders | internal/sigv4/sigv4.go:402-435 | one line for every signed header in sorted order, or a missing header named; host and content-length as the code takes them |
| CanonicalRequest.BuildCanonicalRequest | internal/sigv4/sigv4.go:314-331 | the assembled text is the request's lines, the header block included, or the error for a missing header |
| CanonicalRequest.RefusedIffMissing | internal/sigv4/sigv4.go:402-435 | there is no text exactly if a signed header other than host and content-length was not sent |
| CanonicalRequest.SameTextIffAgree | internal/sigv4/sigv4.go:314-476 | the signed text is unambiguous: two requests have the same one exactly if method, absolute path, decoded query pairs, sorted signed headers and payload hash agree, and for every signed header the words of the host, the content length, or the words of the values joined by commas |
| RequestExample.TextOfExample | internal/sigv4/sigv4.go:314-476 | the whole text for one request with an escaped path, two parameters and three headers |
| CanonicalRequest.OneLineFeedMoreThanAws | internal/sigv4/sigv4.go:322-330 | the text is the canonical request of AWS Signature Version 4 with one more line feed, and so never equal to it |
| ChunkFormat.HeaderRoundTrip | internal/sigv4/sigv4.go:644-658 | parsing a printed chunk header gives back size and signature |
| ChunkFormat.HugeSizeIsRefused | internal/sigv4/sigv4.go:644-658 | a chunk size of 2^63 or more is refused |
| ChunkFormat.NextOfPrinted | internal/sigv4/sigv4_test.go:241-248 | reading a printed chunk gives back its data and signature and stops right behind it |
| ChunkFormat.ChunkIsDeliveredIffSigned | internal/sigv4/sigv4.go:639-693 | a chunk is delivered exactly if its signature is the keyed hash of the six lines: algorithm, time, scope, the signature before it, the hash of nothing, the hash of its data; otherwise the body ends with a mismatch |
| ChunkFormat.LastChunkEndsIffSigned | internal/sigv4/sigv4.go:639-693 | the empty chunk ends the body exactly if it is signed like that |
| ChunkFormat.HeaderWithSpaces | internal/sigv4/sigv4.go:644-658 | white space around a chunk's signature is taken off |
| ChunkFormat.SizeExamples | internal/sigv4/sigv4.go:644-658 | sizes are hexadecimal in either case, most significant digit first |
| ChunkFormat.DecodeOfPrinted | internal/sigv4/sigv4_test.go:229-248 | printed chunks are read back as they were in front of whatever follows |
| ChunkFormat.WholeBodyRoundTrip | internal/sigv4/sigv4.go:616-693 | chunks, the empty chunk and anything behind it decode to the chunks and a complete end |
| ChunkFormat.CutBody | internal/sigv4/sigv4.go:639-667 | a body cut anywhere delivers the chunks before the cut and is never complete, but ends with an error other than end of file exactly if cut strictly inside data |
| ChunkReading.SignedChunkedReader.ReadChunk | internal/sigv4/sigv4.go:639-668 | reads one chunk as the format says, with the error of the first check that fails |
| ChunkReading.SignedChunkedReader.NextChunk | internal/sigv4/sigv4.go:639-693 | releases a chunk exactly if its signature continues the chain, and then keeps as the last signature the keyed hash of the six lines |
| ChunkReading.SignedChunkedReader.Read | internal/sigv4/sigv4.go:616-635 | delivers exactly the next decoded bytes, at least one if there is room, and errors stick |
| ChunkReading.SignedChunkedReader.Drain | internal/sigv4/sigv4.go:616-635 | for every list of buffer sizes the reads are the decoded bytes up to the error of the decoding |
| ChunkReading.ReadAll | internal/sigv4/sigv4.go:616-635 | reading to the end terminates with all decoded bytes and the decoding's error |
| SignedPut.ServeSignedPut | internal/s3api/handlers.go:71-110 | a chunk-signed upload is served as the upload of the bytes its chunks decode to |
| SignedPut.SignedPutStoresSigned | internal/sigv4/sigv4.go:178-180 | whatever arrives in place of a chunk-signed upload: if it is acknowledged, what is stored are the first `size` bytes of what one sender signed behind that request, byte for byte |
| SignedPut.OctetsExample | internal/sigv4/sigv4.go:616-635 | "ABC" is stored as 41 42 43 |
| SignedPut.SignedPutIsReadBack | internal/s3api/handlers.go:71-153 | and those are what every full read delivers while calm, until the object is touched again |
| SignedPut.GenuineBodyIsStored | internal/s3api/handlers.go:71-110 | a body printed and signed as a sender does is taken while calm, and what its chunks hold is stored, byte for byte |
| SignedPut.ServeSignedPart | internal/s3api/multipart.go:49-90 | a chunk-signed part is served as the upload of the bytes its chunks decode to |
| SignedPut.SignedPartIsSigned | internal/s3api/multipart.go:204-213 | an acknowledged chunk-signed part was read to a clean end, every signature checked, and its bytes are, byte for byte, a beginning of what one sender signed behind that request |
| SignedPut.GenuinePartIsTaken | internal/s3api/multipart.go:204-213 | a part printed and signed as a sender does is taken while calm |
| ChunkAuthenticity.SeedTextMeans | internal/sigv4/sigv4.go:155-164 | what a seed signature is made of: algorithm, time, scope and the hash of the canonical request, in lines |
| ChunkAuthenticity.TagsAgree | internal/sigv4/sigv4.go:670-684 | under an ideal keyed hash two signatures are the same exactly if they are in the same place behind the same request, time, scope and chunks |
| ChunkAuthenticity.GenuineIsNext | internal/sigv4/sigv4.go:670-684 | a chunk whose genuine signature continues an upload's chain is the next chunk of an upload of the same request that begins alike |
| ChunkAuthenticity.DeliveredIsSignedPrefix | internal/sigv4/sigv4.go:616-693 | whatever is on the wire, and whatever else was signed under the key, what is delivered is a prefix of the chunks of one upload of the same request, and all of them once the empty chunk verifies |
| ChunkAuthenticity.DeliveredIsOwnPrefix | internal/sigv4/sigv4.go:616-693 | of the upload's own chunks, if every upload of the same request, time and scope is a beginning of it |
| ChunkAuthenticity.DeliveredIsOwnIffNoneGoesFurther | internal/sigv4/sigv4.go:616-693 | and on every wire only then, provided that what the senders of those uploads print is unforged |
| ChunkAuthenticity.OtherBodyIsDelivered | internal/sigv4/sigv4.go:616-693 | the body of another upload of the same request is delivered whole, complete or given up midway |
| ChunkAuthenticity.EqualRequestsExchange | internal/sigv4/sigv4.go:616-693 | of two uploads of the same request, time and scope, the reader of either accepts the other's body as complete |
| ChunkAuthenticity.ExchangedBody | internal/sigv4/sigv4.go:670-684 | an instance in which what is delivered is no prefix of what the sender signed |
| ChunkAuthenticity.WitnessDelivered | internal/sigv4/sigv4.go:616-693 | the hypotheses hold together of a keyed hash, an upload and its printed body, which is delivered to its verified end |
| UnsignedChunks.UnsignedRoundTrip | internal/sigv4/sigv4.go:732-770 | chunks, the zero chunk and any trailer of at least two bytes decode to the chunks and a complete end, on a body that ends cleanly |
| UnsignedChunks.TrailerMeans | internal/sigv4/sigv4.go:750-770 | trailer lines are skipped up to the first empty one; a connection that breaks before it is an error, a body that ends is none |
| UnsignedChunks.SameFraming | internal/sigv4/sigv4.go:695-770 | whatever the signed reader delivers of a body, the unsigned reader delivers in front of anything else |
| UnsignedChunks.UnsignedChunkedReader.NextChunk | internal/sigv4/sigv4.go:732-770 | one step of the decoding, the trailer lines included |
| UnsignedChunks.UnsignedChunkedReader.Read | internal/sigv4/sigv4.go:709-728 | delivers exactly the next decoded bytes, and errors stick |

## Left out

- The Telegram adapters, HTTP routing, XML, TOML, the command line, the browser pages and the disk cache. The
  backend here stores exactly the declared bytes under a fresh id, may fail before or after doing so, and may
  lose its connection while reading; the service is the one without a cache.
- AES-GCM, SHA-256, HMAC, MD5 and random numbers. The AEAD is taken with its contract; keyed and plain hashes
  are taken as injective where a theorem says so; nonces, keys and upload ids are parameters. "Different keys
  of one AEAD" does not occur: the tamper theorem is about the objects sealed under one bucket's key.
- int64 wrap-around, except where `FrameFormat.CiphertextSizeFitsInt64` rules it out: sizes and offsets are
  unbounded integers. The frame counter is taken modulo 2^64 in nonces and associated data.
- XML and base64 texts, and query parameters that do not parse: the handlers here get the values.
- Concurrency within a call and between calls. Every service call is one step, and the pipe between
  `DecryptRange` and the client is a list of written bytes.
- RangeRead.DecryptRange: its writer accepts everything, and its source is a whole blob in memory. The service
  copies the message to a file before the first byte of a range is sent; a file that cannot be read back is
  left out, so a range read that fails has sent nothing.
- A database commit that reports an error and happened all the same. A failed statement changes nothing here.
- "No leaked messages" is not claimed: an overwrite leaves the old message behind, and so may a failed upload.
- "Every object row has a bucket row" is not claimed: it fails when the key of a deleted bucket could not be
  removed. The invariant is about keys.
- The object's id in the backend beyond its number, creation times, names checked by `validBucketName`, and
  bodies of undeclared length staged in a temporary file.
- Which of several causes a failed call reports while something goes wrong; the exact answer is stated while
  calm. In three cases an earlier failure leaves it open even then, and no answer is promised: a bucket whose
  key may have been left behind, the creation of an upload under an id used before, and requests about an
  upload that was completed, or that an abort or a second creation was tried for.
- Part ETags are compared as MD5 values, or as "no MD5 at all"; quotes and case of their text are not modelled.
- `parseAuthHeader`, credential look-up, key derivation, clock checks, and the comparison of the final
  signature: what is proved is about the texts that go into it.
- Header names are lower-cased and looked up as ASCII tokens, and header values are taken as characters, that
  is, as valid UTF-8; an HTTP server may pass other bytes.
- The reader that hashes a plain body: easy beside the chunk readers, and its error with the last bytes is not
  seen by a reader of exactly the declared size.
- A chunk size so large that no buffer can be made for it: the readers here report a short body instead.
- Head requests, bucket lists, metadata export and import, and fsck would add only easy members.
