# Mini Dropbox: a verified model

Mini Dropbox is a small storage service in C: clients upload and download files in 4 KB chunks over
TCP, and the server keeps each user's files in a directory named after the user's token. This
project models its protocol and its file handling in Dafny and proves what they promise, and exactly
when they keep it where they do not always. `dafny verify dfyconfig.toml` checks everything.

## What is modelled

- **The chunked transfer** (`ChunkCount`, `Chunks`, `Transfer`, `TransferRuns`, `FileTransfer`,
  `SentChunks`, `ReceivedChunks`). The two loops of `file_send` and `file_recv` are written twice:
  as a step system of two parties, the messages in flight between them, and an environment that
  corrupts chunks detectably or cuts the connection at any moment; and as imperative methods over
  open files and one end of a connection each. Every run of the step system is shown to be what the
  two methods compute. Safety, the exact deadlock condition, a bound on the length of every run, and
  delivery are proved for all runs. The acknowledgement leaves before the data is written, and the
  destination is not truncated, as in the source. The chunk count goes through a binary32 `float`
  (section 4.3.1 of IEEE 754-2019).
- **Resumption** (`Uploads`, `UploadEnds`, `Sessions`, `Resume`, `UploadStalls`, `Downloads`). The
  server's upload handler with its session table, any number of interrupted attempts at any number
  of files, and downloads resumed on top of a local file, which the server ends by closing the
  connection.
- **Framing** (`Messages`, `ChunkMessages`, `SocketTransfer`). Headers byte by byte, `send_all` and
  `recv_all` under arbitrary partial transfers, interruptions and failures, the client's listing
  loop, chunks and replies as messages on streams that may be cut anywhere, and `file_send` and
  `file_recv` on sockets.
- **Paths** (`Paths`, `Normalize`, `PathLaws`, `UserPaths`, `MakeDirs`). `normalize_path` as an
  in-place buffer algorithm against a stack of components (compare section 4.13 of POSIX.1-2017,
  Base Definitions), the prefix test of `get_user_path`, and the walk of `path_next_dir`.
- **The file tree and the server's requests** (`FileTree`, `Accounts`, `Requests`, `Server`,
  `ServerRuns`). A tree whose operations may fail, with a record of the calls that did, `rm_r` on
  it, the users with their tables, and the request handlers. Each request is also a relation between
  values of the whole state; every run of the message loop is a run of that relation, over which
  isolation and resumption are proved.
- **The user table** (`UserMap`). Chained buckets on the heap under the wrapping hash.

## What the model shows false, and when it holds

- The chunk count drops the last chunk of some files above 2^24 bytes: `ChunksIsExactOrOneLess`
  gives the exact sizes, `LastByteLost` one of them, `WholeFileIff` what that means for an upload.
- Removing a session from a full table reads and writes one word behind the array: `RunOverrunsIff`
  says of a run, `UploadOverrunsIff` of an upload, exactly when; `FullTableOverruns` is a run from
  an empty table that gets there. What the program does after that is not specified by its language.
- A resumed download can start behind bytes it does not have: `ResumeChunkIsCovered` gives the exact
  sizes, `ResumedDownloadIff` the effect, `ResumedDownloadFails` an input.
- A transfer asked to start at or past its last chunk is stuck while the connection is held:
  `DeadlockIff`. Uploads get there: interrupt one, then upload a shorter file of the same last name
  (`UploadStallsIff`, `ShorterUploadStalls`). Downloads do not, as the server closes; fetching a
  complete file again reports -2 instead and leaves it alone, exactly if its size as a float is a
  positive whole number of chunks (`RepeatedDownload`).
- The number of the chunk a download asks for passes through an `int`: `NarrowedIff`. From 2^43
  local bytes on the server starts elsewhere or not at all; at 2^44 it sends everything
  (`AllIsSentAgain`).
- From 2^36 bytes on the count can run past the end of the file, and `file_send` then ends with an
  empty read: `EmptyReadIff`, `CountsPastEndIff`, `CountPastEnd`.
- An upload keeps only the last part of its name, so another or a changed file can resume on it:
  `StartDecides` gives the condition under which what is delivered is right.
- Removing the file of an interrupted upload leaves its session: `RemovalIff`. The next upload then
  has a hole of zeros: `UploadAfterRemovalIff`. Without a removal the guarantee holds over every run
  of the server: `OfferSurvivesRun`.
- A name without a slash is uploaded beside the user's directory, the same place for all such names:
  `SlashlessTarget`.
- An upload ended by a chunk out of step, or by a message too short for one, is answered as finished
  and its session dropped: `UploadFinishesIff`, `OutOfStepIsFinished`.
- A resumed upload that is lost before a good chunk arrives forgets its number and starts over, and
  one lost while its first chunk is answered keeps that chunk's: `UploadFinishesIff` gives the
  number.
- After a lost chunk or reply `file_send` reports the number of chunks minus one, which wraps around
  when there were none: `NumberReported`.
- `umap_get` returns the user at the head of the bucket: `GetIsRightIff`, `SecondKeyGetsFirstUser`;
  a key that is not at the head is linked again by every put: `BucketIsItsPuts`.
- The relative branch of `normalize_path` cancels pairs of unmatched `..`: `RelativeIsLexicalIff`.
- `get_user_path` accepts names next to the user's root that extend the token text: `AcceptedIff`,
  `ContainedIff`, `SiblingIsAccepted`. Tokens have one length, so users stay apart: `RootsAreApart`.
- The client keeps one byte of the resume number: `ClientRestartsEarlier`; restarting earlier is
  harmless (`OfferNeverExceedsStored`).
- A connection cut inside a chunk's payload lets one more chunk through, made of leftover memory,
  and a message longer than a chunk makes `chunk_recv` copy from a null pointer: `ChunkRecv`,
  `RecvChunks`.

## Model

| member | source | states |
|---|---|---|
| ChunkCount.ToFloatIsNearest | src/file.c:34 | the conversion of a size to `float` is the nearest binary32 number: no representable number is closer, and another is as close only exactly halfway |
| ChunkCount.ToFloatIsRepresentable | src/file.c:34 | the converted size has a 24-bit significand and a power of two |
| ChunkCount.TieGoesToEven | src/file.c:34 | halfway between two floats the one with the even significand is taken |
| ChunkCount.ChunksIsExactOrOneLess | src/file.c:34 | below 2^36 bytes the count is the true number of chunks, or one less exactly when the size rounds down onto the chunk boundary below it |
| ChunkCount.LossIsSmall | src/file.c:34 | the bytes no chunk covers are at most half a float spacing: none up to 2^24 bytes, 512 below 2^34 |
| ChunkCount.LargeFiles | src/file.c:34 | from 2^36 bytes on the count is the float divided by the chunk size, and right exactly when the float is less than a chunk at or above the size |
| ChunkCount.LastByteLost | src/file.c:34 | a file of 2^24 + 1 bytes is counted one chunk short |
| ChunkCount.ResumeChunkIsCovered | src/client.c:449-453 | for every local size a download resumes inside the bytes it has if and only if the size does not round up: onto the next chunk boundary below 2^36 bytes, at all from there on |
| ChunkCount.ResumeSkipsAByte | src/client.c:449-453 | a local file one byte short of 4097 chunks resumes at chunk 4097 |
| Chunks.WritesMerge | src/file.c:194 | two writes that meet leave the file one write of both would leave, holes and old tail included |
| Chunks.ChecksumsMatch | src/util.c:148-159 | true exactly when all 32 bytes agree |
| Transfer.StepKeepsInv | src/file.c:53-202 | every step of sender, receiver and environment keeps the joint invariant: one message in flight, loops at most one chunk apart, destination right up to the receiver's offset |
| Transfer.TakenChunkIsAwaited | src/file.c:172-188 | in every reachable state an intact chunk in flight is the one the receiver awaits, so the sequence check passes, also for the first chunk of a resumed transfer |
| TransferRuns.TransferIsSafe | src/file.c:81-199 | over all interleavings, corruptions and losses and for every destination: the mismatch and empty-read exits are never taken, the loops are at most one chunk apart, and the destination has the source from the start chunk up to the receiver's offset and is otherwise as it was, a hole before it zeros |
| TransferRuns.AgreementGrows | src/file.c:81-199 | in every reachable state what agreed with the source before still does, together with everything up to the receiver's offset, and the tail behind both is the old one |
| TransferRuns.PatchKeepsAgreement | src/file.c:172-194 | sending again what is already right damages nothing and keeps the tail of a longer file |
| TransferRuns.SuccessDelivers | src/file.c:201 | whenever the receiver returns success the destination is the counted content followed by the old tail |
| TransferRuns.StartDecides | src/server.c:567-582 | for every older destination: a receiver that returns success has left the counted content if and only if the bytes before the start chunk, a hole read as zeros, were those of the source |
| TransferRuns.DeadlockIff | src/file.c:145-182 | while the connection is held, some run gets stuck if and only if the start chunk is at or past a positive chunk count |
| TransferRuns.TransferTerminates | src/file.c:81-127 | every run, whatever is corrupted or cut, has at most 12 steps per chunk to send, 4 per corruption, and 3 more |
| TransferRuns.CompletedTransferSucceeds | src/file.c:81-201 | a run without a cut that neither program can extend has both ends successful and the whole counted content delivered |
| FileTransfer.FileSend | src/file.c:53-130 | the sender stops, having sent the chunks and returning the statistics (unsigned wrap included) that the sender's automaton gives for the replies and losses it meets |
| FileTransfer.SendChunks | src/file.c:81-127 | the two nested loops compute the sender's automaton from any chunk number and offset |
| FileTransfer.FileRecv | src/file.c:132-202 | the receiver stops with the destination bytes, replies and statistics of the receiver's automaton, for every sequence of arriving chunks and every loss |
| FileTransfer.ReceiverRunsItsLoop | src/file.c:132-202 | in every run of the step system in which the receiver stops, it stops exactly where file_recv stops on the chunks delivered in that run |
| FileTransfer.SenderRunsItsLoop | src/file.c:53-130 | in every run in which the sender stops, it has sent exactly the chunks, and stops exactly where, file_send does on the replies of that run |
| SentChunks.RunSendsInOrder | src/file.c:95-127 | at every moment of every run, whatever is corrupted or cut, each chunk the sender has put on the connection is that numbered stretch of the file, from the start chunk on and below the count; the first has the start number, and each later one repeats its predecessor or is the next |
| SentChunks.FileSendSendsTheFile | src/file.c:53-130 | what one call of file_send adds to the connection, for any replies and losses, is in that order; if it reports success it has sent every counted chunk from the start on, and the bodies, repeats counted once, are that stretch of the file |
| SentChunks.SentChunksTile | src/file.c:92-127 | of two chunks sent one after the other the second is the first again, or starts at the byte after the first one's inclusive end byte; every chunk sent passes its digest check and holds the bytes its header names |
| SentChunks.BodyOnceIsTheFile | src/file.c:81-127 | the bodies sent so far, repeats counted once, are the file from the start chunk to the end of the last chunk sent |
| SentChunks.NumberReported | src/file.c:81-129 | for all replies and losses the number file_send reports is the start plus the OK replies it took: plus one after an empty read, minus one modulo 2^64 after a lost chunk or reply; how many replies it took is told by the chunks sent |
| SentChunks.EmptyReadIff | src/file.c:90-93 | for every file, count and start, the exit for an empty read can be taken if and only if the start is below the count and the last counted chunk begins at or past the end of the file |
| SentChunks.CountsPastEndIff | src/file.c:34 | the count stays inside the file below 2^36 bytes, and from there on exactly when the float is less than a chunk above the size |
| SentChunks.CountPastEnd | src/file.c:34 | 2^37 + 8193 bytes are rounded up by two chunks less a byte |
| ReceivedChunks.FileRecvWrites | src/file.c:145-202 | for every sequence of chunks whose good ones are numbered in step, every destination and every loss: each chunk is answered OK exactly if its data has the digest its header names; those answered OK, and no others, are written one behind the other from the place the first one's number gives; the number and code reported, and where the call stops, are given |
| ReceivedChunks.OutOfStepIsRefused | src/file.c:184-188 | after any good chunks in step, a good one whose number is not the next ends the call with -4 and the number reached |
| Sessions.User.AddSession | src/user.c:47-53 | a session is appended, or nothing changes and -1 is returned when all ten slots are taken |
| Sessions.User.GetSession | src/user.c:55-69 | the first session with this kind and name, or null exactly when there is none |
| Sessions.User.RemoveSession | src/user.c:71-92 | exactly the first match is removed and all others keep their order; the word behind the array is overwritten, with null, exactly when there is a match and all ten slots are taken |
| Sessions.User.ShiftDown | src/user.c:79-85 | the swap loop closes the gap; in a full table its last turn swaps with the word behind the array |
| Sessions.KeysStayUnique | src/server.c:572-632 | over every run of lookups, conditional additions and removals no key is held twice and never more than there are slots |
| Sessions.RunOverrunsIff | src/user.c:71-92 | a run of such operations leaves the array if and only if some removal in it finds its key in a full table |
| Sessions.FullTableOverruns | src/user.c:71-92 | as many interrupted uploads as there are slots, one of them resumed and finished: that run, from an empty table, leaves the array |
| Sessions.RemoveFirstEffect | src/user.c:71-92 | with unique keys a removal makes the key unfindable, keeps every other key, and shrinks the table by at most one |
| Sessions.RemovalKeepsOthers | src/user.c:55-92 | a removal does not change what a lookup of any other key finds |
| Uploads.LastPart | src/server.c:567-569 | what is appended to the user's directory: of a name with a slash the part from the last slash on, with no further slash; for a name without one what a null pointer prints as |
| Uploads.OpenSession | src/server.c:571-590 | the offered number is that of an interrupted session or 0; the key has a session afterwards unless the table was full; which other keys are held and the numbers offered for them stay |
| Uploads.CloseSession | src/server.c:608-632 | after -1 or -2, and after no other code, the session is kept with the number reached; otherwise it is dropped; which other keys are held and the numbers offered for them stay |
| Uploads.UploadTo | src/server.c:556-633 | for every name and every course of the transfer the outcome, the user's table and offered numbers, and the destination are related as `Uploads.Uploaded` says: refused exactly above 10 GB with nothing changed; the number offered; the table after lookup, addition and removal; the number kept after a loss; the bytes file_recv leaves; no other file's number changed |
| Uploads.UploadOverrunsIff | src/server.c:572-632 | an upload leaves the array of sessions if and only if it finishes with its own session in a full table: one of ten when it began, or the tenth it added itself |
| UploadEnds.UploadFinishesIff | src/server.c:604-632 | over everything that can reach the server, its good chunks in step: the upload is suspended if and only if too few chunks were written and the loss is -1 or -2, and finished otherwise; the bytes left, the number reported and the number offered next are given by the chunks; after a lost connection finished means the number reached the count |
| UploadEnds.UnopenedIsSuspended | src/server.c:604-619 | a destination that cannot be opened suspends the upload at 0, nothing written, its session kept if one of ten slots was free |
| UploadEnds.OutOfStepIsFinished | src/server.c:604-632 | an upload whose chunks come out of step before all are counted is answered as finished, and nothing is offered next |
| Resume.OfferNeverExceedsStored | src/server.c:571-612 | over any number of interrupted uploads, each restarted at the offered chunk or earlier, the server never offers a chunk beyond what is correctly stored |
| Resume.AttemptKeepsStore | src/server.c:604-632 | one attempt keeps that invariant, stores at least as much as before, and ends with code 0, -1 or -2 only |
| Resume.ResumedUploadDelivers | src/server.c:571-633 | after any number of interruptions a completed upload leaves the whole counted content, followed by the tail of an older, longer file |
| Resume.NextUploadCompletes | src/server.c:571-633 | whatever is stored after any attempts, the next upload that is not cut completes and leaves the whole counted content (the session table has its own limit, Uploads.UploadOverrunsIff) |
| Resume.HandlerRunsAttempt | src/server.c:604 | file_recv, given the chunks delivered in an attempt, stops where the attempt stops |
| Resume.UploadedIsAttempt | src/server.c:571-633 | whenever the handler runs on what an attempt delivers, the number it offers afterwards and the bytes it leaves are those of the attempt, and keys stay unique |
| Resume.UploadAttempt | src/server.c:571-633 | the handler, run on a user's table and an open destination, leaves exactly the offered number and the bytes the resume theorems speak of, keys unique, and the numbers of all other files |
| Resume.EachFileByItself | src/server.c:571-633 | however uploads of several files interleave, the number and bytes of each are those of its own attempts alone |
| Resume.OffersStaySafe | src/server.c:571-612 | so over every interleaving no offered number runs ahead of what is correctly stored for its file |
| Resume.ClientRestartsEarlier | src/client.c:390-397 | the restart, the first of the eight bytes sent, is the offered number modulo 256: never past it, and equal to it exactly below 256 |
| Resume.WholeFileIff | src/file.c:34 | a completed upload stores exactly the source if and only if nothing was lost by the count and the old file was not longer, or the last chunk was lost and the old file had the source's length and ended like it |
| Resume.LoopsDeliver | src/file.c:53-202 | told of the two C loops: given the messages of any uncut, finished run both return success and the destination has the whole counted content |
| UploadStalls.UploadStallsIff | src/client.c:393 | whatever the server holds, an upload can get stuck if and only if the first byte of the offered number is at or past a positive chunk count |
| UploadStalls.LostAfterOffers | src/server.c:608-625 | for every file and every n below its count, an upload lost after n chunks, whether the call fails or the stream ends, is offered n next |
| UploadStalls.ShorterUploadStalls | src/server.c:567-582 | for every two files, the second with fewer chunks and fewer than 256: some interruption of the first makes the upload of the second under the same name get stuck at once |
| Downloads.NarrowedIff | src/server.c:672-695 | the number passed on has the lower half of the one asked for and is its value as a signed number: equal up to INT_MAX; beyond, up to INT_MAX or above 2^64 - 2^31 |
| Downloads.DownloadEnds | src/server.c:424-502 | a download that nobody disturbs goes on until both programs have stopped, the server successfully: with -2 and the local file as it was exactly when asked to start at or past a positive count, and otherwise with success and, if the bytes before the start were right, the whole counted content |
| Downloads.ResumedDownloadIff | src/client.c:448-453 | a download resumed on a prefix of any size, its start narrowed as the server narrows it, is right if and only if it did not resume past the bytes at hand, or the skipped source bytes are all zero |
| Downloads.ResumedDownloadFails | src/client.c:448-453 | with 0x1000FFF bytes at hand and the next one not zero, a download that reports success is wrong |
| Downloads.RepeatedDownload | src/client.c:448-453 | below 2^44 bytes, fetching a complete file again leaves it as it is and ends with -2 if and only if its size as a float is a positive whole number of chunks, with success otherwise |
| Downloads.AllIsSentAgain | src/server.c:691 | with 2^44 bytes at hand the client asks for chunk 2^32 and the server starts at 0 |
| Messages.HeaderRoundTrip | src/msg.c:141-163 | decoding the 48 header bytes gives back every field |
| Messages.HeaderLayout | src/msg.h:37-42 | length in bytes 0-7 and type in bytes 8-11, lowest byte first; token in 12-27, padding in 28-31, time in 32-47 |
| Messages.SendAll | src/msg.c:61-93 | 0 means all bytes were sent in order; otherwise a proper prefix was, and a call failed or took nothing; interruptions and splits never matter |
| Messages.RecvAll | src/msg.c:95-129 | 0 means the next bytes of the stream are in the buffer; -2 means the peer closed before that many arrived; -1 only if a call failed |
| Messages.Message.SendTo | src/msg.c:131-157 | on success header, payload header and payload are on the stream with the summed length; on failure a proper prefix of them is |
| Messages.Message.RecvHeader | src/msg.c:159-169 | the next 48 bytes decoded, the stream left behind them |
| Messages.Message.RecvPayload | src/msg.c:171-186 | the payload announced, nothing read past the limit, an old payload kept when none is announced |
| Messages.Message.RecvFrom | src/msg.c:188-208 | each result tells what the stream begins with: 0 a whole message, now held and consumed, -3 a header that announces too much, -2 too few bytes; -1 only if a call failed; for every way the stream is split |
| Messages.StreamRoundTrip | src/msg.c:131-208 | any sequence of messages is recovered in order and the stream is left at the next header |
| Messages.ReceiveListing | src/client.c:533-545 | the client's receiving loop returns exactly the entries at the head of the stream, for every way it is split, and tells how the listing ended; after a failing call it has the first of them |
| Messages.ListingRoundTrip | src/client.c:533-545 | for every sequence of entries sent and the message that ends it, the loop's result is those entries in order, and the stream is left behind them |
| Messages.CutListingYieldsWhole | src/client.c:533-545 | wherever a listing is cut before its end, the loop's result is exactly the entries that are whole on the stream, and that the connection closed |
| Messages.CutStreamYieldsWhole | src/msg.c:159-208 | wherever the stream is cut, the messages recovered are exactly those that are whole on it, in order |
| ChunkMessages.ChunkSend | src/chunk.c:30-39 | one SEND_CHUNK message with chunk header and data, or a proper prefix of it and a negative result |
| ChunkMessages.ChunkRecv | src/chunk.c:41-78 | for every stream and all events: -1 only if a call failed, -2 before a whole header, -4 for a message too short, which is consumed; a crash, or a failed call, exactly after one longer than a chunk; otherwise a chunk accepted exactly when its digest matches, which is the one on the stream unless a call failed or the stream was cut inside it |
| ChunkMessages.ChunkRoundTrip | src/chunk.c:30-78 | the message chunk_send builds is read back as the same chunk |
| ChunkMessages.ChunkLayout | src/chunk.c:30-39 | on the wire: 48 bytes of message header of type 18, then number, start, end and length in 8 bytes each, lowest first, 32 bytes of digest, and the data |
| ChunkMessages.StreamDeliversChunks | src/chunk.c:30-78 | the messages that are whole on any part of a stream of chunk messages carry the first of the chunks sent, and all of them when it is not cut |
| ChunkMessages.RecvChunks | src/chunk.c:41-78 | chunk_recv, called until all chunks have come or a loss is reported, for all events: the first n chunks are delivered as they were sent; without a failing call n is all that are whole on the stream, then comes at most one made of leftover memory, exactly after a cut inside a payload |
| ChunkMessages.RecvReply | src/file.c:117 | the sender reads exactly the reply at the head of the stream, and every type but OK as a request to repeat |
| ChunkMessages.ReplyRoundTrip | src/file.c:190-191 | the reply read is the reply sent, and no part of one is taken for a reply |
| ChunkMessages.ReplyLayout | src/file.c:151-191 | on the wire: a header alone, of type 19 for OK and 20 for a repeat |
| ChunkMessages.ChunkAtIsSendable | src/file.c:97-104 | every chunk of a file fits the 64-bit fields and size limits of the wire format |
| SocketTransfer.RecvFile | src/file.c:132-202 | file_recv on a socket, for every stream and all events: the destination, the statistics and the whole replies it gets out are those of the receiver's automaton on the chunks that reach it and the result of the call that ended it; without a failing call these are the chunks on the stream in order, at most one more after a cut, and all of them if the stream ended it |
| SocketTransfer.SendFile | src/file.c:53-130 | file_send on a socket, for every stream and all events: the whole chunks it gets out and the statistics are those of the sender's automaton on the replies that reach it, which are the first on the stream; -5 needs a call that fails or takes nothing, -6 a failing call or the end of the replies |
| SocketTransfer.SendUntilOk | src/file.c:107-123 | one chunk is sent again and again until it is acknowledged, a send fails or the replies end, as the automaton does |
| Paths.NormalForm | src/util.c:161-237 | the components of a normalised absolute path are the stack fold of the input's components, and a trailing slash stands exactly after a last `..` that leaves something |
| Paths.NormalIsStable | src/util.c:161-237 | a second application changes no component, a third no byte, and a second no byte exactly when there is no trailing slash |
| Paths.ResolveComposes | src/util.c:161-237 | resolving a/b is resolving b from where a leads |
| Paths.RelativeIsLexicalIff | src/util.c:203-221 | the relative branch gives the lexical normal form if and only if at most one `..` is unmatched |
| Paths.TwoUpsCancel | src/util.c:203-221 | "../.." normalises to "." |
| PathLaws.NameIsAppended | src/util.c:223-228 | a name behind a path is one more component |
| PathLaws.SlashesAreOne | src/util.c:175-179 | repeated slashes are one |
| PathLaws.DotIsSkipped | src/util.c:187-190 | a/./b leads where a/b leads |
| PathLaws.UpRemovesName | src/util.c:191-201 | a/n/../b leads where a/b leads, for every name n |
| PathLaws.UpStaysAtRoot | src/util.c:195-196 | /../b leads where /b leads |
| PathLaws.NormalOfName | src/util.c:223-228 | the text of a normalised absolute path grows by a name, behind a slash that is written unless there is one |
| PathLaws.NormalOfDot | src/util.c:187-190 | a dot does not change the text |
| PathLaws.NormalOfUp | src/util.c:191-201 | a name and two dots behind it leave the text before the name, with a slash |
| PathLaws.RelativeOfMore | src/util.c:223-228 | the text of a normalised relative path grows by a slash and the name, or is the name |
| PathLaws.RelativeOfUp | src/util.c:203-213 | a name and two dots behind it leave a relative text as it was |
| Normalize.NormalizePath | src/util.c:161-237 | the buffer algorithm yields exactly the specified text for every absolute and relative path, terminated inside strlen + 2 bytes |
| Normalize.RewindName | src/util.c:196-201 | the absolute rewind stops behind the slash before the last component and never before the first position |
| Normalize.RewindRelative | src/util.c:206-213 | the relative rewind removes exactly the last component and the slash before it |
| UserPaths.UnparseIsInjective | src/util.c:406-412 | different tokens have different 36-character texts |
| UserPaths.UnparseLayout | src/util.c:406-412 | two hexadecimal digits a byte, the higher half first, with dashes behind the 4th, 6th, 8th and 10th byte |
| UserPaths.GetUserPath | src/util.c:414-435 | the normalised path below the root, or nothing when the root is not a prefix of it |
| UserPaths.TextPrefixIff | src/util.c:427 | the prefix test on texts is a test on components, exact up to the last one |
| UserPaths.AcceptedIff | src/util.c:414-435 | a path is accepted if and only if it resolves to the storage directory followed by a component that starts with the token text, and what is returned resolves to the same place |
| UserPaths.ContainedIff | src/util.c:414-435 | a path leads to or below the user's root if and only if it is accepted and its third component has 36 characters |
| UserPaths.RootsAreApart | src/util.c:406-435 | what one user's requests reach is never at or below another user's root |
| UserPaths.SiblingIsAccepted | src/util.c:427 | for every token a name beside the root is accepted |
| MakeDirs.PathWalker.Next | src/util.c:247-276 | each call returns the prefix up to the next slash past the skipped characters, puts back the byte it overwrote before, and null comes after the whole path, with the copy restored |
| MakeDirs.CreateDirectories | src/util.c:278-313 | -2 exactly for paths that leave the root text, with nothing done; otherwise 0 exactly when every directory asked for is there, nothing else added or changed; it stops only at a directory whose mkdir failed or whose parent is no directory, with all before it made |
| FileTree.RmR | src/util.c:336-382 | terminates, removes nothing outside the subtree, changes nothing; for an existing path 0 exactly when the whole subtree is gone; every node left is one that a failed call, for itself or above or below it, stood in the way of |
| UserMap.HashOf | src/user_map.c:19-30 | the shift-and-add loop is the polynomial 5381 * 33^n + sum of byte times power of 33, modulo 2^64 |
| UserMap.Table.KeyToIndex | src/user_map.c:32-35 | the bucket computed is that polynomial modulo 2^64 modulo the capacity |
| UserMap.Table.Put | src/user_map.c:37-67 | the node is linked at the end of the bucket its hash selects, unless the head has the key; chains stay acyclic and disjoint and the count is the number of nodes |
| UserMap.Table.Get | src/user_map.c:69-96 | succeeds for exactly the keys put so far, and hands back the head's value |
| UserMap.Table.constructor | src/user_map.c:10-17 | a table with empty buckets |
| UserMap.GetFindsExactlyThePut | src/user_map.c:69-96 | after any sequence of puts a lookup succeeds for exactly the keys put |
| UserMap.FoundIsFirstPut | src/user_map.c:84-93 | the node found holds the first value put under the key, so with that node's value every lookup would be right |
| UserMap.BucketIsItsPuts | src/user_map.c:37-67 | after any sequence of puts a bucket holds those put into it, in order, without repeats of its first key, and with repeats of all others |
| UserMap.GetIsTheHeads | src/user_map.c:78-93 | a lookup that succeeds hands back the value of the first pair ever put into the bucket |
| UserMap.GetIsRightIff | src/user_map.c:78-93 | when every put brings its own user, the lookup as written is right if and only if the key at the head of the bucket is the one looked up |
| UserMap.KeysCollide | src/user_map.c:19-35 | keys that differ in their last two bytes by (0,0) and (1,223) share a bucket of 256 |
| UserMap.SecondKeyGetsFirstUser | src/user_map.c:69-96 | the second of two such keys is given the user of the first |
| UserMap.NodesAreInPlace | src/user_map.c:37-67 | every stored key was put and is in the bucket its hash selects |
| Requests.RunLeavesOthersAlone | src/server.c:367-424 | over every run of requests, none with the token of a user, everything at or below that user's root stays as it was |
| Requests.UploadTarget | src/server.c:562-569 | for every name, an upload goes to the user's root, one name below it, a sibling of the root that starts with the token text, or the storage directory, which cannot be opened |
| Requests.SlashlessTarget | src/server.c:567-569 | every name without a slash goes to one and the same place, beside the user's root |
| Accounts.People.Add | src/user.c:8-25 | a new user has an empty table that has not been left and is offered 0 for every file; all other accounts stay |
| Accounts.People.UploadAs | src/server.c:539-633 | the account of the user found and the bytes change as `Uploads.Uploaded` says; nobody else's account changes, and all tables stay sound and apart |
| Server.MiniBox.HandleAuth | src/server.c:503-537 | a user with an empty table is registered in any case; the answer is OK exactly if the directory was missing and could be made, and then it is there; nothing else changes |
| Server.MiniBox.HandleRemove | src/server.c:803-883 | refused exactly for paths outside, with nothing changed; done exactly when the subtree was there and is gone; what is left of it a failed call stood in the way of; every other node of the tree is as it was |
| Server.MiniBox.HandleMkdir | src/server.c:885-927 | refused exactly for paths outside, with nothing changed; done exactly when all directories asked for are there; every other node is as it was; otherwise it stopped at a failed call or for want of a parent |
| Server.MiniBox.HandleUpload | src/server.c:556-633 | above 10 GB nothing is touched; otherwise the tree is the old one with the user's directory added if it was missing and could be made, and, if the destination could be opened, the file there with the bytes file_recv leaves, an empty one included; both happen whenever no call fails and there is room; the user's table and offers change as `Uploads.Uploaded` says, no other account does |
| Server.MiniBox.OnMessage | src/server.c:367-424 | every message and its answer are a step of the relation `Requests.Step`: without a token, or for an unregistered one, nothing but a registration has an effect; a removal, a directory, an upload and a registration change exactly what their handlers say and are answered accordingly; a download or a listing changes nothing |
| Server.MiniBox.Serve | src/server.c:256-345 | the messages and their answers are a run of those steps from the state before to the state after, and every user whose token they do not carry is left untouched |
| ServerRuns.OfferSurvivesRun | src/server.c:256-633 | over every run of requests of any users in which the user removes neither the file nor a directory above it, the number offered for the file stays within what is stored right |
| ServerRuns.RegistrationStarts | src/server.c:536 | after a user's first registration a lookup finds an account, the new one or the one at the head of the bucket, and it offers 0 for the user's files |
| ServerRuns.OfferIsSafe | src/server.c:256-633 | from an empty server, over every run of requests in which the user does not remove the file: once the user is registered, the number offered for the file is within what is stored right |
| ServerRuns.RemovalIff | src/server.c:803-883 | after a removal of the file the number offered is within what is stored if and only if there was none |
| ServerRuns.UploadAfterRemovalIff | src/server.c:571-633 | an upload completed on a removed file is right if and only if the source is zero up to the chunk it restarted at |

## Left out

- Sockets, epoll, blocking flags, accept and close handling and the idle worker threads: plumbing without a property of its own.
- SHA-256: the digest is a parameter of the model; a corrupted chunk is one whose digest differs from its header. The digest covers the data only, so a header changed with the data intact is outside the model, as is a chunk whose length field exceeds its payload.
- Short or failing reads of regular files and short or failing writes: `file_recv` ignores the result of `write`, and the model's files take every write.
- `file_send` on something that is not a regular file: the source then goes on with unset information.
- A connection cut in one direction only, and replies corrupted on the way.
- ChunkMessages.ChunkRecv: nothing is said about the state after it crashes; for a connection lost inside a payload, or after a failing call, the buffer holds arbitrary memory, judged by its digest like any chunk.
- Messages.RecvAll: after a failing call it says nothing about how much of the stream was consumed, because every caller gives the connection up.
- Sessions.User.RemoveSession: the word behind the array is one more slot of the model; what else lives there, and what the program does after touching it, is not modelled.
- UserMap.Table.Put: `next` of a new entry is taken as null; the source leaves it unset.
- The transfer theorems need a chunk count that does not exceed the file, which holds below 2^36 bytes and beyond as `SentChunks.CountsPastEndIff` says; where it does not, `SentChunks.EmptyReadIff` says what that opens. Uploads are limited to 10^10 bytes.
- handle_download except for its start chunk and the close after it, and handle_list: they do not change the file tree. Its session number is overwritten by the client's before use.
- The storage quota beyond the size test: `used_space` is never updated.
- An uploaded name without a slash passes a null pointer to a format, which C leaves undefined; the model takes it to print as "(null)", as the GNU C library does.
- Symbolic links, permissions, PATH_MAX truncation, and the difference a trailing slash makes to lstat on a file: the tree resolves paths lexically, lets any call fail and records which did. The directory listing of `rm_r` is taken at once.
- normalize_path of a null pointer, failing allocations, freeing and leaks.
- Command parsing, progress bar, printing, token file, XDG lookup, clocks (carried as opaque bytes).
- Server.MiniBox.HandleUpload: makes the directory and opens the file before it looks the session up, where the source looks first (the two do not depend on each other), and puts the received bytes into the tree once, when the loop has ended.
- MakeDirs.CreateDirectories: for a root directory given by its normalised text, which every root the server passes is.
- The handlers and the run theorems use `file_send` and `file_recv` on ends that yield chunks and replies; `SocketTransfer.RecvFile` and `SocketTransfer.SendFile` show that on sockets they compute the same from what reaches them.
- SocketTransfer.SendFile: for files whose size fits a signed 64-bit offset, as every file's does.
