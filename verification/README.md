# Teldrive: the stored-bytes pipeline and the file tree, verified

Teldrive keeps files as messages of a Telegram channel. A file is cut into parts, each part is optionally
encrypted, the parts are uploaded one by one, and a row in a database says which messages make up the file.
Reading a byte range goes the other way: ranges of parts, aligned chunks of messages, decrypted blocks.

These Dafny modules model that pipeline and the file tree around it, and prove what it promises.

| module | models |
|---|---|
| `Streams` | Go's reader contract, and what it means for a whole run of reads |
| `Nonce` | the 192-bit little-endian block counter |
| `CipherFormat` | the encrypted file format, its sizes, and random access into it |
| `EncryptStream`, `DecryptStream` | the streaming encrypter and the seekable decrypter |
| `ChunkReader`, `UpstreamReader` | the batched, concurrent reader of one stored object, and what a decrypter reads from |
| `FileReader` | a byte range of a file that is stored in parts |
| `Decimal`, `HttpRange` | number parsing, string splitting, and Range headers |
| `BlockHash`, `PartSize` | the block hasher, and the part size of a transfer |
| `Transfer` | resumable upload and commit |
| `EndToEnd` | upload, commit and ranged download composed |
| `FolderSize` | the recursive folder-size query |
| `FileTree`, `DirectoryRace`, `Paths` | path resolution, racing directory creation, path round trips |
| `Paging` | keyset pagination and its cursors |
| `Mirror` | pruning the destination of a mirror run |
| `IntegrityCheck`, `IntegrityRace` | comparing a channel's messages with its files, and doing so beside running transfers |
| `Dedup` | deduplication of events |

Objects that the program updates in place are classes; the queries of the database are functions and
relations. Each method is proved against a specification function or relation, and the properties are lemmas
about that. A reader's specification is what it still *owes*: a list of bytes and the status that follows.
Every `Read` hands out a prefix and keeps the rest (`Streams.ReadStep`), so buffer sizes and chunking drop out
of all later statements.

Three things are parameters of which only a law is known. `CipherFormat.SecretBox` stands for secretbox under
one key: sealing adds 16 bytes, opening undoes it under the same nonce, and no proper prefix of a sealed block
opens. `BlockHash.Hash` stands for BLAKE3: digests have 32 bytes. `Paging.LawfulFormats` stands for the text form of identifiers and times: parsing undoes
printing, and identifiers have no colon. Failures, timing, completion order, buffer sizes, salts and nonces are
nondeterministic choices, so that a theorem covers all of them. A parameter `reliable` says that nothing fails
during a call; without it anything may, and with it the theorems say that the call succeeds.

## Main results

* **End to end** (`EndToEnd.TransferAndStream`, `EndToEnd.RangeAnswer`). For every source, part size,
  encryption flag, number of failed attempts, reader concurrency and sequence of buffer sizes: once a transfer
  has succeeded whose attempts all uploaded and committed to one channel, a request for a range gets exactly the
  source's bytes of that range, unless the network fails. Whatever the channels, a file with a part whose number no
  message of its channel has is never answered with bytes. The transfer succeeds if nothing fails in one of its
  attempts, and the request is answered if nothing fails while it is served. Plain and encrypted parts alike are
  read through the chunked reader.
* **The decrypter is a cursor** (`DecryptStream.ServeOps`, `DecryptStream.ReadsSeeWindow`). Any run of seeks and
  reads, in any order, after errors or not, is seen as from a cursor over one and the same plaintext; the reads
  between two seeks return a prefix of the window sought. A chunked reader that gives up inside a block ends
  the run with an error and never passes for data (`DecryptStream.Decrypter.FillBuffer`).
* **Random access agrees with decrypting everything** (`CipherFormat.RandomAccess`,
  `CipherFormat.UnderlyingCovers`), and damaged blocks become zeros in their own places and nowhere else
  (`CipherFormat.BlockStandsAlone`, `DecryptStream.DecryptAll`).
* **The chunked reader** (`ChunkReader.Download`) delivers exactly the range for any concurrency, any completion
  order and any pace of its producer, and never gives up if no fetch fails.
* **Crash safety** (`Transfer.SyncTransfer`, `Transfer.RetryTransfer`). Whatever step an attempt fails at, reading
  the source included, and whatever channels the attempts upload to, the rows stay a gap-free prefix of the plan,
  and a file is committed with all parts of the source once over. An attempt in which nothing fails commits. The file
  stands for the source if and only if each part was sent to the channel that the file names, or has a *twin* there:
  another message of the same number that decodes to the same bytes (`Transfer.PlannedHolds`).
* **The tree hash does not depend on the cut** (`Transfer.RowHashesCover`, `BlockHash.HashSlices`).
* **Folder sizes** (`FolderSize.RefreshIsRecursiveSum`, `FolderSize.TotalIsUnique`): the path-containment join
  is the recursive sum of the user's active files, and the recursion ends on every table. A new file adds its size to
  the folders above it and to no other (`FolderSize.NewFileAdds`).
* **Racing directory creation** (`DirectoryRace.CallEnds`, `DirectoryRace.CallersAgree`, `DirectoryRace.ResultStays`).
  However the queries of any number of calls interleave, a call fails only if the database does, ends after at most
  three queries for each name, and all calls for a path return the same identifier, which the path leads to from
  then on.
* **Pruning** (`Mirror.Drive.Prune`). A mirror run deletes an entry of the destination if and only if the entry or
  a folder above it is *hit*: looked up under a path that the source does not have. Entries that are not hit stay
  wherever the run fails; those that are hit go if it does not fail, as far as folders fit on a page.
* **Integrity check** (`IntegrityCheck.StoredFileIsReported`, `IntegrityCheck.UnreportedFileIsSafe`); a transferred file
  that stands for its source is not reported (`EndToEnd.TransferredFileIsSafe`). **Paging** (`Paging.ListAll`) and
  **deduplication** (`Dedup.ProcessAll`).

## Where the code keeps less than its promise

Each of these has a concrete failing input or an exact condition.

* Each attempt uploads to the channel that is current when it starts, the commit names the channel that is current
  when it runs, and the parts are looked up in that one channel, although each row knows its own. If the current
  channel changes in between, because the user selects another one or the old one is full, the parts sent before are
  out of reach: the file stands for the source if and only if all of them have twins (`Transfer.RetryTransfer`). A
  100 MiB file of which 64 MiB were stored in one channel, resumed and committed in another one that has some other
  message of that number, is committed without its first part (`Transfer.RolloverExample`).
* A transfer that finds rows of another part size or encryption under its upload ID commits them too. If it
  succeeds, the file stands for the source if and only if there were no such rows, or both settings encrypt alike
  and cut the same first part, and its parts are in reach (`Transfer.ResumeOtherSettings`). A 100 MiB file of which 64 MiB were stored, resumed
  with parts of 128 MiB, is committed with two first parts (`Transfer.LeftoverExample`). The upload ID leaves both
  settings out (pkg/services/imports_jobs.go:815-822).
* An encrypted object cannot be sought past its end everywhere. The chunked reader is then asked for a range that ends
  before its start, and panics if and only if it does so by more than one byte and in the same KiB
  (`ChunkReader.CutPanicsExactly`); for a seek with a limit that is when the object ends in the KiB in which the
  block asked for would start, before that start (`DecryptStream.SeekPanics`), as after 65500 bytes and a seek to
  65536 (`DecryptStream.SeekPanicsExample`). The ranges of a stored file never lead there (`FileReader.OpenSealed`).
* A suffix range longer than the file is refused, where section 14.1.2 of RFC 9110 asks for the whole file; it
  is honoured if and only if it is not longer (`HttpRange.SuffixRange`). A range a-b whose a has more than 63 bits
  is taken for the suffix -b (`HttpRange.IntRange`). A list element without "-" panics
  (`HttpRange.Parse`).
* Following cursors returns all rows if the limit is between 1 and 100 or there are at most 100 rows, with these
  exceptions (`Paging.ListAll`): by size, a request crashes if and only if the first page is full and ends with a
  missing size, and in ascending order missing sizes that do not fit on the first page are left out; by name, a
  cursor is refused if and only if a full page ends with an empty name. The query caps the page at 100 while the
  next cursor is decided by the uncapped limit. A cursor survives if and only if its value is not empty
  (`Paging.CursorRoundTrip`).
* A full path resolves to its entry if and only if no name below the root is "root" and the first one does not
  start with "root" (`Paths.PathRoundTrip`, `Paths.RootInRoot`).
* A mirror run looks entries up without space at the end of their names, and knows source directories without
  space at either end of their paths. So it deletes the file "a " (`Mirror.TrailingSpaceIsHit`) and the folder " a"
  with the file " a/b" in it (`Mirror.LeadingSpaceIsHit`) on every run, although the source has them; a file
  directly in the destination goes if and only if the source has none of its name without space at the end
  (`Mirror.TopFileIsHit`).
* A mirror of the whole drive takes a folder in the root whose name comes out as "root" for the root itself, and
  deletes files of the root that the source has (`Mirror.LostToInnerRoot`). Under names that cleaning leaves alone,
  a file that the source has is deleted if and only if there is such a folder and the source does not have the file
  in its own folder "root" as well (`Mirror.CleanFileIsHit`).
* The integrity check looks at nothing in a channel without messages, so missing files there go unreported
  (`IntegrityCheck.ChannelProcessor.Process`). Beside a running transfer it takes a message for an orphan if and
  only if the message was sent before the channel was read, its file was committed after the files were read or
  replaced before, and the uploads were read before its row was there or after the commit
  (`IntegrityRace.OrphanBesideTransfer`). The messages of a file that was replaced before the check are all
  orphans (`IntegrityRace.ReplacedAreOrphans`).

## Model

| member | source | states |
|---|---|---|
| Streams.RunDelivers | internal/crypt/cipher.go:49-64 | in every run of a well-behaved reader the bytes delivered are a prefix of what it owes; a run that has reported an error has delivered all of it |
| Streams.RunTerminates | internal/crypt/cipher.go:49-64 | with non-empty buffers the error comes after at most one call per byte |
| Streams.ReadFill | internal/crypt/cipher.go:49-64 | fills the buffer from a reader that may return less, or reports why not |
| Nonce.Carry | internal/crypt/cipher.go:128-138 | carrying from byte i adds 256^i modulo 256^n in place |
| Nonce.Increment | internal/crypt/cipher.go:140-142 | adds one modulo 2^192 |
| Nonce.Add | internal/crypt/cipher.go:144-157 | adds any 64-bit number modulo 2^192, carrying past byte 8 |
| Nonce.AddIsIncrements | internal/crypt/cipher.go:140-157 | adding x is x increments |
| Nonce.BlockNoncesDistinct | internal/crypt/cipher.go:144-157 | blocks with different 64-bit indices get different nonces |
| Nonce.LowestFirst | internal/crypt/cipher.go:128-138 | the lowest byte of a counter comes first, and overflows into the second |
| CipherFormat.SizesAreInverse | internal/crypt/cipher.go:530-554 | every size survives encryption, and a stored size is accepted if and only if it is the encrypted size of something, namely of its result |
| CipherFormat.DecryptedEncrypted | internal/crypt/cipher.go:195-218 | an encrypted file decrypts to its plaintext and then end of file, and has the announced size |
| CipherFormat.EncryptedLayout | internal/crypt/cipher.go:189-218 | the letters TELDRIVE and two zero bytes, the nonce, and block i of 64 KiB sealed under the nonce advanced by i |
| CipherFormat.DecryptedRefuses | internal/crypt/cipher.go:258-284 | objects without a whole header, with other first ten bytes, or with a last block too short for its tag |
| CipherFormat.OpensLength | internal/crypt/cipher.go:327-356 | the plaintext length and the final status depend on the stored length alone |
| CipherFormat.BlockStandsAlone | internal/crypt/cipher.go:327-356 | at the place of block i is what the block opens to or, if it does not open, a zero for each of its bytes, whatever the other blocks are |
| CipherFormat.DecryptedBlocks | internal/crypt/cipher.go:327-356 | so it is for all blocks of an object with a good header |
| CipherFormat.UntornSeals | internal/crypt/cipher.go:335-351 | no proper prefix of a block that was sealed opens |
| CipherFormat.UntornWindow | internal/crypt/cipher.go:431-441 | the same holds of the blocks that random access reopens |
| CipherFormat.UnderlyingCovers | internal/crypt/cipher.go:386-412 | the reopened range is whole blocks, covers the limit and has no spare block when the limit is positive |
| CipherFormat.RandomAccess | internal/crypt/cipher.go:286-325 | opening the computed blocks under the moved counter and discarding the offset gives the window of the whole plaintext |
| EncryptStream.Encrypter.constructor | internal/crypt/cipher.go:171-193 | a fresh encrypter owes exactly the encrypted file |
| EncryptStream.Encrypter.Read | internal/crypt/cipher.go:195-218 | hands out a prefix of the ciphertext owed and keeps the rest |
| EncryptStream.Encrypter.Refill | internal/crypt/cipher.go:202-214 | sealing the next block of the source changes nothing that is owed; there is nothing to seal if and only if nothing is owed |
| EncryptStream.Encrypter.Finish | internal/crypt/cipher.go:220-230 | the first error sticks |
| EncryptStream.EncryptAll | internal/crypt/cipher.go:195-254 | for all buffer sizes and all ways the source splits its data the output is header and sealed blocks, of the announced size |
| UpstreamReader.Upstream.Read | internal/crypt/cipher.go:49-64 | hands out a prefix of what a chunked or any other reader owes; a reader that gives up hands out nothing and still owes something |
| UpstreamReader.Upstream.ReadFill | internal/crypt/cipher.go:49-64 | fills the buffer, or reports the end or the giving up, in which case neither the buffer is full nor the end reached |
| DecryptStream.StoredObject.Open | internal/reader/reader.go:177-189 | every opening, of the header or of blocks, is a chunked reader that owes the window asked for, unless that is empty |
| DecryptStream.SeekPanics | internal/reader/reader.go:177-189 | a seek with a limit makes the new reader panic if and only if the object ends before the start of the block asked for, in its KiB |
| DecryptStream.SeekPanicsExample | internal/reader/tg_reader.go:181-187 | 65500 encrypted bytes and a seek to 65536 |
| DecryptStream.NewDecrypter | internal/crypt/cipher.go:256-284 | accepts a stream if and only if it starts with the magic and a nonce; otherwise the right error |
| DecryptStream.OpenHeader | internal/crypt/cipher.go:286-312 | the first opening is accepted if and only if the object has a good header, and at offset 0 what follows it gives the window |
| DecryptStream.NewDecrypterSeek | internal/crypt/cipher.go:286-325 | the new reader owes exactly the requested window; unless the network fails it is refused if and only if the header is bad or the position is past the end |
| DecryptStream.Decrypter.FillBuffer | internal/crypt/cipher.go:327-356 | buffers the next block, zeros if it does not open, or ends the stream; a reader that gives up inside a block is never taken for a short block |
| DecryptStream.Decrypter.Emit | internal/crypt/cipher.go:371-383 | hands out buffered bytes up to the limit, whose end is end of file |
| DecryptStream.Decrypter.Read | internal/crypt/cipher.go:358-384 | hands out a prefix of the window owed; reaching the limit is end of file; a chunked reader that gives up ends the stream without bytes |
| DecryptStream.Decrypter.RangeSeek | internal/crypt/cipher.go:414-456 | afterwards the reader owes the window of the plaintext at the new position, or it fails with the error that the position and the stored size determine |
| DecryptStream.Decrypter.Land | internal/crypt/cipher.go:443-455 | stepping into the reopened block gives the window, or fails exactly when and how the position demands |
| DecryptStream.Decrypter.Seek | internal/crypt/cipher.go:458-464 | the same without a limit, failures included |
| DecryptStream.Decrypter.MoveNonce | internal/crypt/cipher.go:430-432 | the counter stands at the block that was reopened |
| DecryptStream.Decrypter.UnFinish | internal/crypt/cipher.go:478-487 | an ended stream becomes usable again |
| DecryptStream.Decrypter.Close | internal/crypt/cipher.go:489-506 | a closed decrypter reports that it is closed, and closes its reader |
| DecryptStream.ServeOps | internal/crypt/cipher.go:358-487 | every call of any run of seeks and reads is seen as from a cursor over one plaintext; only a failing network ends the run early |
| DecryptStream.ReadsSeeWindow | internal/crypt/cipher.go:358-456 | what the reads after a seek return is a prefix of the window sought, and all of it once one reports an error |
| DecryptStream.DecryptAll | internal/crypt/cipher.go:327-384 | for all buffer sizes, damaged data or not, the whole decryption comes out, of length DecryptedSize when that is defined; if the network fails, a prefix; each block that does not open comes out as zeros |
| ChunkReader.CalculateChunkSize | internal/tgc/helpers.go:255-262 | returns the largest power of two from 1 KiB to 1 MiB that does not exceed the distance, or 1 KiB |
| ChunkReader.ChunkSizeUnique | internal/tgc/helpers.go:255-262 | there is only one such size |
| ChunkReader.AlignedIsAllowed | internal/tgc/helpers.go:152-172 | an aligned request of such a size stays inside one 1 MiB window |
| ChunkReader.PartRequest | internal/reader/tg_reader.go:168-189 | every chunk request is allowed, and trimming it gives exactly the bytes between two marks of the range |
| ChunkReader.PlanIsGood | internal/reader/tg_reader.go:91-110 | the cut arithmetic of a new reader is right for every part |
| ChunkReader.CutPanicsExactly | internal/reader/tg_reader.go:91-187 | the cut of a single part panics if and only if the range ends before its start, by more than one byte and in the same KiB |
| ChunkReader.MultiReader.constructor | internal/reader/tg_reader.go:84-114 | a new reader owes exactly the range |
| ChunkReader.MultiReader.Close | internal/reader/tg_reader.go:116-121 | cancels, and loses no byte already promised |
| ChunkReader.MultiReader.FetchAll | internal/reader/tg_reader.go:163-200 | whatever order the fetches finish in, slot i holds part i of the batch |
| ChunkReader.MultiReader.Gather | internal/reader/tg_reader.go:202-205 | the buffers of a batch are consecutive pieces of the range |
| ChunkReader.MultiReader.FetchBatch | internal/reader/tg_reader.go:162-200 | a batch continues where the channel stops; a failed fetch cancels the reader |
| ChunkReader.MultiReader.SendOne | internal/reader/tg_reader.go:202-214 | each buffer sent continues the one before it; the reader gives up only when cancelled |
| ChunkReader.MultiReader.Produce | internal/reader/tg_reader.go:151-217 | every step of the producer keeps the flow of bytes intact and makes progress, or the channel is full or closed |
| ChunkReader.MultiReader.Dequeue | internal/reader/buffer.go:8-18 | the next buffer is read from its start |
| ChunkReader.MultiReader.Read | internal/reader/tg_reader.go:123-149 | hands out a prefix of the range owed; gives up only after a failed fetch or a Close |
| ChunkReader.Download | internal/reader/tg_reader.go:84-217 | the whole range and nothing else is read, for any concurrency, completion order, pace and buffer sizes; without failed fetches it always is |
| FileReader.CalculatePartByteRanges | internal/reader/reader.go:44-59 | the ranges of all parts between the first and the last byte, in order |
| FileReader.FirstPartSize | internal/reader/reader.go:72-75 | taking the first part's plain size for the part size is as good as knowing it |
| FileReader.RangeTiled | internal/reader/reader.go:44-59 | the parts' shares of a range tile it |
| FileReader.RangeOwed | internal/reader/reader.go:44-138 | serving the shares one after the other gives the range of the source, as far as it is stored |
| FileReader.OpenSealed | internal/reader/reader.go:174-189 | an encrypted part is read through the chunked reader, and owes its share of the plaintext |
| FileReader.NewReader | internal/reader/reader.go:61-92 | a new reader owes the range; unless the network fails it is refused if and only if the first part of the range is missing |
| FileReader.Reader.InitializeReader | internal/reader/reader.go:122-194 | opens the current part for its range, or reports that there is no such part |
| FileReader.Reader.MoveToNextPart | internal/reader/reader.go:131-138 | opens the part after the current one, or ends |
| FileReader.Reader.NextPart | internal/reader/reader.go:131-138 | stepping to the next part changes nothing that is owed |
| FileReader.Reader.Read | internal/reader/reader.go:94-110 | hands out a prefix of what is owed across part boundaries, and ends with what was due; it fails only if the network does |
| FileReader.ServeRange | internal/reader/reader.go:61-138 | for all buffer sizes the range of the source is delivered and then end of file; with missing parts, what is stored and then an error; if the network fails, a prefix, and it always succeeds on a reliable one |
| Decimal.FormatParses | pkg/repositories/filesquery/builder.go:308-371 | every 64-bit number survives being printed and parsed |
| Decimal.ParseDigits | internal/http_range/range.go:32-33 | digits, with or without a sign, parse to the sum of the digits times their powers of ten, as far as that has 64 bits |
| Decimal.ParsesDigitsOnly | internal/http_range/range.go:32-33 | nothing but digits with or without a sign parses |
| Decimal.FormatDigits | pkg/repositories/filesquery/builder.go:308-371 | a number is printed as the digits that stand for it, without leading zeros |
| Decimal.SplitJoin | pkg/repositories/file_repo.go:408-409 | splitting undoes joining for parts without the separator |
| HttpRange.Parse | internal/http_range/range.go:20-66 | invalid if and only if there is no "="; panics if and only if an element has no "-"; otherwise the accepted elements in order, all inside the file |
| HttpRange.ParseElement | internal/http_range/range.go:30-59 | one element is accepted inside the file, skipped, or has no "-" |
| HttpRange.IntRange | internal/http_range/range.go:30-59 | for digits a and b in base 10, a-b is accepted if and only if a is not after b and inside the file, and is cut at its end; with an a of more than 63 bits it counts as -b |
| HttpRange.OpenRange | internal/http_range/range.go:39-45 | for digits a in base 10, a- is the rest of the file |
| HttpRange.SuffixRange | internal/http_range/range.go:39-53 | for digits n in base 10, -n is the last n bytes if and only if the file has that many |
| HttpRange.RangeExamples | internal/http_range/range.go:20-66 | what bytes=10-19, bytes=10- and bytes=-10 ask of a thousand bytes |
| HttpRange.ListElements | internal/http_range/range.go:20-27 | the elements of a header are what stands between the commas behind the first "=" |
| HttpRange.CollectPicks | internal/http_range/range.go:30-59 | the ranges of a list are those of its accepted elements, each once and in order |
| BlockHash.BlockHasher.Write | internal/hash/hash.go:36-60 | however the data is sliced, only its concatenation counts |
| BlockHash.BlockHasher.CloseBlock | internal/hash/hash.go:53-56 | a full block adds its digest |
| BlockHash.BlockHasher.Sum | internal/hash/hash.go:63-76 | the digests of all blocks since the start, a partial last one included |
| BlockHash.BlockHasher.Reset | internal/hash/hash.go:84-87 | forgets everything |
| BlockHash.HashesAppend | internal/hash/hash.go:36-76 | data cut at a block boundary hashes to the hashes of its pieces |
| BlockHash.HashesOfBlock | internal/hash/hash.go:53-56 | data of at most one block has one digest, its own |
| BlockHash.HashesLength | internal/hash/hash.go:36-76 | there is one digest for every started block |
| BlockHash.HashSlices | internal/hash/hash.go:36-76 | any slicing of the same data gives the same block list |
| PartSize.PartSizeIsAligned | pkg/services/sync_chunk_size.go:10-18 | a part size is always a multiple of 16 MiB between 64 and 2000 MiB, the nearest such number to the one asked for and the larger of two equally near ones; 512 MiB by default |
| Transfer.SyncTransferResumeState | pkg/services/imports_jobs.go:645-687 | counts exactly the leading parts whose latest row fits, and their plain bytes |
| Transfer.ByPartIsLatest | pkg/services/imports_jobs.go:653-661 | of the rows of a part the one created last counts |
| Transfer.RowFitsPiece | pkg/services/imports_jobs.go:663-699 | a row fits if and only if there is such a part, it is encrypted as asked for, and its size is what the source's piece comes to |
| Transfer.PlannedFits | pkg/services/imports_jobs.go:663-699 | a retry skips exactly the parts that are stored |
| Transfer.ResumesAfterRows | pkg/services/imports_jobs.go:645-687 | with rows that are a prefix of the plan, a retry resumes right behind them |
| Transfer.Tee | pkg/services/upload_staging.go:92-105 | the uploader and the hasher see the same next bytes of the source, as far as there are any |
| Transfer.Skip | pkg/services/imports_jobs.go:600-603 | skips exactly the bytes already uploaded, or fails if and only if the source breaks off before |
| Transfer.PrepareEncryption | pkg/services/upload.go:56-74 | what is uploaded for a part, and the size announced for it |
| Transfer.StagePart | pkg/services/upload_staging.go:92-160 | a row is only inserted for a message of the attempt's channel that decodes to exactly the next bytes of the source, with their hashes; never if the source breaks off |
| Transfer.StageNext | pkg/services/imports_jobs.go:610-631 | one turn of the upload loop extends the prefix by one part in the attempt's channel, or leaves it alone |
| Transfer.Store.Create | pkg/repositories/upload_repo.go:24-34 | the row is added or not; an answer may be lost after it was |
| Transfer.ByPartNoSorts | pkg/repositories/upload_repo.go:36-49 | the rows of an upload, each as often as it is there, by part number |
| Transfer.MoreRowsThanParts | pkg/services/imports_jobs.go:653-684 | with a first part among the rows that a run does not take over, there are more rows than parts taken over |
| Transfer.UploadSyncTransferParts | pkg/services/imports_jobs.go:589-637 | rows stay a gap-free prefix of the plan, if they were one, and new ones lie in the attempt's channel; on success they cover the source; with a foreign first part there is a row too many |
| Transfer.UploadTreeHash | pkg/services/file.go:42-56 | hashes the block hashes of all rows, or nothing if there are none |
| Transfer.RowHashesCover | pkg/services/file.go:42-56 | the rows' block hashes are those of the bytes they cover, wherever the parts were cut |
| Transfer.PlannedHolds | pkg/services/file.go:255-284 | all planned rows together make a file that stands for the source if and only if every row was sent to the file's channel or has a twin there |
| Transfer.PlannedStored | pkg/services/raw.go:195-207 | a reader finds the planned parts in a channel if and only if each was sent there or has a twin there |
| Transfer.CollectParts | pkg/services/file.go:262-279 | the parts of all rows in order, or a refusal if and only if a row has no message |
| Transfer.Commit | pkg/services/file.go:239-311 | the file's row is replaced, with the channel current at the commit, and the upload's rows are deleted together, or nothing happens |
| Transfer.CommitAll | pkg/services/file.go:174-212 | committing an upload with all its rows makes a file of exactly these parts in the current channel, or changes nothing |
| Transfer.CommittedHolds | pkg/services/file.go:239-284 | a file made of all planned rows stands for the source if and only if they are in reach in its channel |
| Transfer.SyncTransfer | pkg/services/imports_jobs.go:134-200 | one run keeps the prefix wherever it fails, reading the source included; a committed file has all parts, and stands for the source if and only if they are in reach in the channel current at the commit; if nothing fails it commits |
| Transfer.RetryTransfer | pkg/services/imports_jobs.go:134-200 | so does any number of runs with any channels; the file stands for the source if all runs upload and commit to one channel; they succeed if nothing fails in one of them |
| Transfer.OtherSettings | pkg/services/imports_jobs.go:663-684 | rows of a run with other settings are a prefix of this run's plan, or their first row is not taken over, according to whether both cut and encrypt the first part alike |
| Transfer.ResumeOtherSettings | pkg/services/imports_jobs.go:134-200 | a successful run that found the rows of other settings leaves a file that stands for the source if and only if there were none or both settings cut and encrypt the first part alike, and its parts are in reach |
| Transfer.LeftoverExample | pkg/services/imports_jobs.go:815-822 | a run of 128 MiB parts over a stored part of 64 MiB commits a file with two parts that does not stand for the source |
| Transfer.RolloverExample | pkg/services/upload_staging.go:38-52 | a run that finds its first part stored in another channel than the one now current commits a file that does not stand for the source |
| EndToEnd.StreamFile | pkg/services/raw.go:105-225 | every request is answered with the right status and the source's own bytes, or a network failure if the network is not reliable; no bytes of a file that misses a message |
| EndToEnd.HoldsThere | pkg/services/raw.go:221-236 | a file that stands for its source has all its messages, so it passes the check for missing parts |
| EndToEnd.TransferAndStream | pkg/services/imports_jobs.go:134-200 | transfer with any failures, then a range request: the source's bytes or a network failure if one channel was used throughout; no bytes of a file that misses a message; success if one attempt and the serving are free of failures |
| EndToEnd.RangeAnswer | pkg/services/raw.go:131-146 | a request for a-b, digits in base 10, gets the source's bytes a to b as far as there are any |
| EndToEnd.TransferredFileIsSafe | cmd/check.go:206-238 | the integrity check does not report a file that stands for its source, and takes none of its messages for an orphan |
| FolderSize.PathLength | pkg/repositories/file_repo.go:437-449 | no path of the recursive query is longer than the table, even with cycles elsewhere |
| FolderSize.FolderHierarchy | pkg/repositories/file_repo.go:438-449 | the recursion ends and finds exactly the chains of active folders from the roots |
| FolderSize.TotalIsRecursive | pkg/repositories/file_repo.go:457-463 | the path-containment join is a folder's own files plus its subfolders' totals |
| FolderSize.TotalIsUnique | pkg/repositories/file_repo.go:457-463 | no other sizes satisfy that equation |
| FolderSize.RefreshIsRecursiveSum | pkg/repositories/file_repo.go:436-472 | after the refresh every reached folder has exactly the sum of the sizes of the user's active files and folders in it, a missing size counting nothing; every other row is as it was |
| FolderSize.OnlyActiveRowsCount | pkg/repositories/file_repo.go:446-455 | rows of other users and rows that are not active have no influence on any size |
| FolderSize.NewFileAdds | pkg/repositories/file_repo.go:450-463 | a new active file adds its size to the folder it is in and to every folder above, and to no other |
| FolderSize.UpdateIsDefined | pkg/repositories/file_repo.go:464-468 | there is exactly one such update of every table |
| FolderSize.ReachedExactly | pkg/repositories/file_repo.go:438-449 | a row is reached if and only if it is an active folder of the user and a root, or its parent is reached |
| FileTree.LookupFinds | pkg/repositories/file_repo.go:176-197 | an entry is found under a name and parent if and only if it is active and has them |
| FileTree.Files.ResolvePathID | pkg/repositories/file_repo.go:654-675 | returns what the path's names lead to, or nothing if one is missing |
| FileTree.Files.GetOrCreate | pkg/repositories/file_repo.go:608-648 | one name is found, or one folder is added for it |
| FileTree.Files.CreateDirectories | pkg/repositories/file_repo.go:598-652 | the path then leads to the result; one folder is added for each missing name and nothing else changes |
| FileTree.WalkGrows | pkg/repositories/file_repo.go:654-675 | while nothing is deleted, what a path leads to stays what it is |
| DirectoryRace.StepKeepsInv | pkg/repositories/file_repo.go:607-649 | every query of every call keeps the index unique and each call on its path |
| DirectoryRace.CallerStepOk | pkg/repositories/file_repo.go:607-649 | one query of one call keeps the index unique, deletes nothing, adds at most the folder that is missing, leaves the call on its path, and does not make it fail unless the database does |
| DirectoryRace.CallerGoesOn | pkg/repositories/file_repo.go:607-649 | a call that has not ended can always make another query, after a lost insert too |
| DirectoryRace.CallEnds | tests/integration/repositories_coverage_test.go:206-257 | a call that the database does not fail never fails, whatever the others do, and has its folder after at most three queries for each name |
| DirectoryRace.AllCanEnd | pkg/repositories/file_repo.go:598-652 | wherever a run stands, all calls can be brought to their ends: none waits for another |
| DirectoryRace.CallersAgree | pkg/repositories/file_repo.go:598-652 | however the queries interleave, no call loses its folder, and all calls for a path get the same identifier |
| DirectoryRace.ResultStays | pkg/repositories/file_repo.go:654-675 | the path resolves to that identifier from then on |
| DirectoryRace.OneFolderPerPrefix | tests/integration/repositories_coverage_test.go:206-257 | each prefix of the path is one active entry, and a folder unless somebody else made a file of that name |
| Paths.GetFullPath | pkg/repositories/file_repo.go:348-409 | prints the names of an entry's ancestors, active or not, from the top down, leaving out those equal to "root"; an unknown entry is not found |
| Paths.LineageIsUnique | pkg/repositories/file_repo.go:348-383 | an entry has one chain of ancestors, active or not |
| Paths.PrintedParts | pkg/repositories/file_repo.go:654-662 | what a printed path is taken apart into |
| Paths.AnyPathParts | pkg/repositories/file_repo.go:654-662 | what a path with any slashes around it is taken apart into |
| Paths.PrintExample | pkg/repositories/file_repo.go:396-409 | the entry b in the folder a has the path /a/b |
| Paths.PathRoundTrip | pkg/repositories/file_repo.go:348-675 | an entry's full path resolves to the entry if and only if no lower name is "root" and the first does not start with "root" |
| Paths.RootInRoot | pkg/repositories/file_repo.go:396-406 | a folder named "root" in the root is printed as the root |
| Paging.CursorRoundTrip | pkg/repositories/filesquery/builder.go:303-346 | decoding undoes encoding if and only if the value is not empty |
| Paging.CursorSelectsLater | pkg/repositories/filesquery/builder.go:355-404 | a row's cursor selects exactly the rows after it that have a value in the sort field, for every field and direction |
| Paging.BeforeIsStrictTotal | pkg/repositories/filesquery/builder.go:264-289 | the sort order is strict and total, so the listing is determined |
| Paging.OrderedMeans | pkg/repositories/filesquery/builder.go:264-289 | names, sizes and times go up in ascending and down in descending order, identifiers decide between equal ones, missing sizes come last or first |
| Paging.NextPage | pkg/services/file.go:493-551 | a page is the next rows in order, and its cursor selects those behind it that cursors lead to; it crashes if and only if it is full and ends with a missing size |
| Paging.ListAll | pkg/repositories/filesquery/builder.go:121-126 | what following the cursors returns, for every limit and all rows: which of them, in order and once, or a crash or a refused cursor, and exactly when |
| Mirror.ImpliedSourceDirs | pkg/services/imports_jobs.go:388-406 | exactly the directories above some source file |
| Mirror.ListFolder | pkg/services/imports_jobs.go:414-453 | at most 100 entries of a folder, all of them if there are no more |
| Mirror.VisitFolder | pkg/services/imports_jobs.go:411-454 | marks exactly what the source does not have among the entries listed |
| Mirror.ExtraDestinationEntries | pkg/services/imports_jobs.go:408-456 | the walk ends, marks only entries it found missing in the source, and overlooks none in a folder of at most 100 |
| Mirror.CascadeIsSubtree | pkg/repositories/file_repo.go:562-585 | a delete deactivates exactly the entries whose chain to the root passes through the deleted one |
| Mirror.MarkedIsHit | pkg/services/imports_jobs.go:408-456 | whatever is marked on the way to an entry makes that entry hit: it or a folder above it was looked up under a path that the source does not have |
| Mirror.HitIsMarked | pkg/services/imports_jobs.go:408-456 | an entry that is hit, below folders of at most a page, is marked or a folder above it is |
| Mirror.CleanFileIsHit | pkg/services/imports_jobs.go:432-447 | a file that the source has, under names that cleaning leaves alone, is hit if and only if the whole drive is mirrored, a folder in the root comes out as "root", and the source's folder "root" lacks the file |
| Mirror.TopFileIsHit | pkg/services/imports_jobs.go:432-447 | when a file directly in the destination is hit, whatever its name |
| Mirror.StrayIsHit | pkg/services/imports_jobs.go:408-456 | a file or folder that the source does not have, under names that cleaning leaves alone, is hit |
| Mirror.SourceDirsAre | pkg/services/imports_jobs.go:388-406 | under names that cleaning leaves alone, the source's directories are the proper prefixes of its files |
| Mirror.TrimLeftCuts | pkg/services/imports_jobs.go:388-406 | all space in front of a name, and no more, is cut off |
| Mirror.TrimRightCuts | pkg/services/imports_jobs.go:432-447 | and so behind it |
| Mirror.PartsOfText | pkg/repositories/file_repo.go:654-662 | the names that a path as a list stands for are those that its text is taken apart into |
| Mirror.Partition | pkg/services/imports_jobs.go:500-508 | the marked entries are split into files and folders, none lost |
| Mirror.SortByDepth | pkg/services/imports_jobs.go:515-521 | the exchange sort is a permutation that puts deeper folders first |
| Mirror.DescendantsFirst | pkg/services/imports_jobs.go:515-528 | a folder is deleted after the marked folders below it |
| Mirror.Drive.FilesDeleteById | pkg/services/file.go:361-414 | deletes an entry with its subtree, or fails |
| Mirror.Drive.Prune | pkg/services/imports_jobs.go:488-529 | wherever it fails, no entry that is not hit is deleted, directly or by cascade; if it does not fail, no entry that is hit stays active below folders of at most a page |
| Mirror.TrailingSpaceIsHit | pkg/services/imports_jobs.go:432-447 | a file whose name ends in a space is hit although the source has it |
| Mirror.LeadingSpaceIsHit | pkg/services/imports_jobs.go:388-406 | a source file in a directory whose name begins with a space is hit |
| Mirror.LostToInnerRoot | pkg/services/imports_jobs.go:408-456 | a mirror of the whole drive with a folder "root" in the root deletes a file of the root that the source has |
| IntegrityCheck.MessageSizes | cmd/check.go:192-204 | the sizes of the messages that count, the last of equal identifiers winning |
| IntegrityCheck.SizeOf | cmd/check.go:192-204 | a message counts with the size of its document or with nothing, unless it belongs to an upload |
| IntegrityCheck.ChannelProcessor.CheckOne | cmd/check.go:207-228 | a file passes if and only if all its messages are there and their plain sizes add up |
| IntegrityCheck.StoredFileIsReported | cmd/check.go:206-228 | with all messages there, a file is reported if and only if what was put into them, before encryption, does not add up to its size |
| IntegrityCheck.BrokenFileIsReported | cmd/check.go:206-238 | a file that misses a message is reported, and its own messages behind the first missing one are orphans |
| IntegrityCheck.UnreadableAddsNothing | cmd/check.go:219-223 | a size that no encrypted part has adds nothing |
| IntegrityCheck.ChannelProcessor.FindMissing | cmd/check.go:206-229 | the broken files in order, and the messages that files claim |
| IntegrityCheck.ChannelProcessor.FindOrphans | cmd/check.go:231-238 | each unclaimed message once, message 1 apart |
| IntegrityCheck.ChannelProcessor.Process | cmd/check.go:164-245 | the whole classification, and the counts; nothing for a channel without messages |
| IntegrityCheck.UnreportedFileIsSafe | cmd/check.go:206-238 | a file is reported if and only if it is broken; an unreported one has all its messages and none of them is an orphan |
| IntegrityCheck.OrphansPartition | cmd/check.go:231-244 | orphans and claimed messages split the scanned messages, message 1 apart |
| IntegrityRace.LifeAt | pkg/services/file.go:267-291 | at every moment of a run of transfers a message has been sent, has a row, belongs to a file or to a replaced one according to the steps taken |
| IntegrityRace.TransferGoesThrough | pkg/services/file.go:267-291 | a message can always be sent, get its row, and become part of a file |
| IntegrityRace.OrphanBesideTransfer | cmd/check.go:164-238 | exactly when a message of a file is taken for an orphan beside running transfers, files replaced meanwhile included |
| IntegrityRace.ReplacedAreOrphans | pkg/repositories/file_repo.go:44-100 | all messages of a file replaced before the check are orphans, message 1 apart |
| Dedup.Broadcaster.ShouldProcess | internal/events/broadcaster.go:142-164 | decides as a history that is never cleaned up would |
| Dedup.Broadcaster.CleanupOldEvents | internal/events/broadcaster.go:167-174 | removes exactly what is more than one TTL old, which makes no difference later |
| Dedup.ProcessAll | internal/events/broadcaster.go:142-174 | over any sequence of calls, an event is accepted if and only if its acceptances so far are at least one TTL old |
| Dedup.FollowsIsUnique | internal/events/broadcaster.go:142-164 | that rule determines every decision |

## Left out

- Telegram, Postgres, Redis, River, HTTP and the remotes: only their contracts are used (a request returns the slice or fails, a query may fail, an index rejects duplicates).
- secretbox, BLAKE3, MD5, scrypt, UUID and time formats: uninterpreted, with the laws above.
- 64-bit overflow: sizes and offsets are unbounded numbers; block indices and file sizes are bounded where the code relies on it.
- The negative limit of the open callback (internal/reader/reader.go:181-185) ends its range at 0 there; `DecryptStream.StoredObject.Open` reads to the end, as the decrypter expects. `FileReader.OpenSealed` always passes a positive limit.
- The first multi-reader of an encrypted part, which is created and replaced (internal/reader/reader.go:172-177).
- DecryptStream.StoredObject.Open: may also fail to open, which the chunked reader never does; nothing is opened for an empty range, where a new reader of the code answers end of file as well or panics (`DecryptStream.SeekPanics` says which), so that `DecryptStream.ServeOps` promises an end of file where the code may panic.
- DecryptStream.DecryptAll: where the network may fail, damaged blocks are assumed not to open when cut short either (`DecryptStream.Sound`).
- DecryptStream.Decrypter.RangeSeek: takes no negative offset, which the code accepts before it panics in the next Read.
- ChunkReader.MultiReader.Produce: goroutines are modelled as steps of one producer that interleave with the reader, and a batch's fetches as finishing in any order; chunk timeouts are failures.
- ChunkReader.MultiReader.Read: returns the bytes that it puts into the caller's buffer; its callers copy them there.
- ChunkReader.MultiReader.Dequeue: the cursor of a buffer (internal/reader/buffer.go) is a field of its reader.
- FileReader.Reader.Read: after an error the reader is not used again, as io.CopyN does; Close of a half-read file is not modelled.
- Streams.ByteStream: a reader may stop short of the buffer, but does not return nothing without an error.
- Streams.ReadFill: a source that fails reports its failure without bytes.
- UpstreamReader.Upstream.ReadFill: the same; the chunked reader fails without bytes by itself.
- Transfer.SyncTransfer: one worker per upload, a source that does not change between attempts, no clean-up of stale uploads meanwhile, and nobody else deletes messages; progress reports are only points of failure. Which channel is current when (internal/tgc/channel_manager.go:45-71) is a parameter of each attempt.
- EndToEnd.TransferAndStream: asks for nothing where another message has the number of a part that is out of reach; what its bytes come to is not modelled.
- Transfer.StagePart: reads a part to its end before encrypting it, where the code encrypts as it reads; `EncryptStream.EncryptAll` shows that this makes no difference.
- Transfer.ByPartNoSorts: the rows of one upload ID only, and rows with equal part numbers come back in insertion order, where the database leaves that open.
- FileTree.Files: the rows of one user; identifiers do not repeat, not even as dangling parents. An existing file on a path is taken for a directory, as in the code.
- DirectoryRace.Step: no entry is deleted while directories are created.
- FolderSize.FolderHierarchy: keeps the paths of the working table as sets, since a path cannot be found twice.
- Paging.ListAll: the rows that match the filters are given in order; the filters, text search and the recursive search are left out, and the table does not change between pages. NULL sorts as larger than all values, as in Postgres.
- Mirror.ListFolder: which 100 entries a larger folder lists is arbitrary, where the code lists the most recently updated.
- Mirror.ExtraDestinationEntries: entries that the walk comes across and whose name has a "/" or cleans to nothing, "." or ".." are excluded (`Mirror.PlainBelow`); the rest of the table is arbitrary.
- Mirror.ImpliedSourceDirs: the same names are excluded in the source.
- Mirror.Drive.Prune: the same; works on lists of names; wildcard filters and the comparison of fingerprints are left out.
- IntegrityCheck.ChannelProcessor.Process: ends before the clean-up, and takes part identifiers to be natural numbers.
- IntegrityRace.OrphanBesideTransfer: transfers only add to the channel; nothing is deleted while the check runs, and the channel is read in one step.
- Dedup.Broadcaster.ShouldProcess: one call at a time, as under its mutex, with a clock that does not run backwards.
- Event fan-out, polling, client pools, sessions, keys, shares, copies, durations, cron and glob patterns, the merging of option maps and generated tables are not part of this model.
