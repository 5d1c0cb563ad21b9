# DikeHDFS read path in Dafny

This project models the two halves of the DikeHDFS read path and proves properties about them.

- **The client side (`DikeHdfsFileSystem.java`).** `DikeHdfsInputStream` is a seekable byte stream over a WebHDFS `OPEN` request. It hands every call to a `DikeReadRunner`. The runner keeps a cursor and one cached HTTP connection. Its state machine has four states: `SEEK`, `OPEN`, `DISCONNECTED` and `CLOSED`. It is built on `DikeAbstractRunner`, which supplies:
  - the URL parameters;
  - the two-hop redirect to a datanode;
  - the `excludedatanodes` list that grows with every failed datanode;
  - the retry loop that reissues a request only after an expired delegation token has been replaced.
- **The server side (`DikeAsyncReader.hpp`).** This is the quote-aware CSV scanner behind `DikeSQL`. It reads records field by field out of buffers that a worker thread fills:
  - a field that ends inside the current buffer is cut in place by overwriting its delimiter with a NUL;
  - a field that runs past the end of the buffer is copied into the record's per-column memory slot.

The model has five modules:

- `Wrappers`: `Option` and `Result`.
- `WebHdfs` (`web_hdfs.dfy`): the values of the abstract runner. It covers URL parameters, the exclusion list, and the verdict of the retry loop.
- `DikeReadStream` (`read_runner.dfy`): the read runner as a class, plus the input stream that delegates to it. The network, user identities and tokens are replaced by parameters:
  - an `Attempt` value says how one try of the request goes;
  - the bytes every datanode serves are the constant `file`.
- `CsvScan` (`csv_scan.dfy`): the pure specification of the scanner.
  - `FindBoundary` finds the first delimiter outside quotes.
  - `Quoted` is the quote flag.
  - `ColumnCount` counts the columns.
  - `RecordText` joins plain fields into a record.
  - There are lemmas on how all of these behave across a buffer boundary.
- `DikeAsync` (`async_reader.dfy`): the reader as a class.
  - Buffers are objects over byte arrays.
  - The record is an object with `fields`, `len` and a two-dimensional `memory` of `MAX_COLUMNS` slots of `FIELD_SIZE` bytes.
  - The queues `work_q`, `free_q` and `tmp_q` are sequence fields.
  - Every scanning method is proved against `CsvScan`.

In the state machine, `close` is terminal for `read`: every later read fails with `StreamClosed`. `seek` to a different position after `close`, however, moves the runner back to `SEEK`, and the next read reconnects. The model follows the code here (`Seek` has no `CLOSED` guard) rather than a reading of `close` as fully terminal.

## Model

| member | source | states |
|---|---|---|
| WebHdfs.HostPortMatchesAuthority | client/dikeclient/src/main/java/org/dike/hdfs/DikeHdfsFileSystem.java:405-408 | The `host:port` that connect records as redirectHost agrees with the URL authority used by getResponse exactly when the URL names a port. |
| WebHdfs.RecordFailure | client/dikeclient/src/main/java/org/dike/hdfs/DikeHdfsFileSystem.java:422-431 | Recording a failed datanode extends the old list. The new host comes first and is joined to an old list by a comma. An empty list becomes just the host. |
| WebHdfs.RecordFailuresSnoc | client/dikeclient/src/main/java/org/dike/hdfs/DikeHdfsFileSystem.java:422-431 | Recording one more failure after a run of them gives the same list as recording the longer run. |
| WebHdfs.FailuresOnlyGrow | client/dikeclient/src/main/java/org/dike/hdfs/DikeHdfsFileSystem.java:422-431 | However many failures are recorded in a row, no earlier entry of the exclusion list is dropped. |
| WebHdfs.LatestFailureFirst | client/dikeclient/src/main/java/org/dike/hdfs/DikeHdfsFileSystem.java:247-254 | After a series of failures, the host of the most recent one heads the exclusion list. |
| WebHdfs.UrlParams | client/dikeclient/src/main/java/org/dike/hdfs/DikeHdfsFileSystem.java:351-359 | The request parameters are the runner's parameters, unchanged and in order. The exclusion list is appended as one extra parameter exactly when it is non-empty. |
| WebHdfs.StripOffsets | client/dikeclient/src/main/java/org/dike/hdfs/DikeHdfsFileSystem.java:158 | Removing the offsets keeps exactly the parameters that are not offsets. |
| WebHdfs.StripOffsetsAppend | client/dikeclient/src/main/java/org/dike/hdfs/DikeHdfsFileSystem.java:158 | Offsets are removed piece by piece: the kept parameters of two lists joined are those of the first list followed by those of the second, so order and repeats are kept. |
| WebHdfs.StripOffsetsKeepsPlain | client/dikeclient/src/main/java/org/dike/hdfs/DikeHdfsFileSystem.java:158 | A parameter list with no offset comes back unchanged. |
| WebHdfs.OffsetOfAppend | client/dikeclient/src/main/java/org/dike/hdfs/DikeHdfsFileSystem.java:175 | Appending `&offset=pos` to a URL that has no offset yields a URL whose offset is `pos`. |
| WebHdfs.RebuiltUrlParams | client/dikeclient/src/main/java/org/dike/hdfs/DikeHdfsFileSystem.java:213-218 | A URL rebuilt from the buffer size and the cursor carries the cursor as its offset and the current exclusion list. |
| WebHdfs.Classify | client/dikeclient/src/main/java/org/dike/hdfs/DikeHdfsFileSystem.java:456-464 | An attempt is retried exactly when it failed with an invalid token, the operation does not require authentication, and the token was replaced. Access denial is always propagated. |
| WebHdfs.RetryOutcome | client/dikeclient/src/main/java/org/dike/hdfs/DikeHdfsFileSystem.java:449-466 | The retry loop succeeds with the first successful try, or fails with the error of a try that ends it; every earlier try was retried. |
| WebHdfs.RetryOutcomeAt | client/dikeclient/src/main/java/org/dike/hdfs/DikeHdfsFileSystem.java:449-466 | When try k ends the loop and every try before it was retried, the loop's verdict is that of try k: success with k when it raised nothing, otherwise its error. |
| DikeReadStream.ReadCount | client/dikeclient/src/main/java/org/dike/hdfs/DikeHdfsFileSystem.java:245 | A stream read returns -1 exactly when nothing is left. Otherwise it returns between 1 and the requested length, and no more than what is available. |
| DikeReadStream.ConsecutiveReadsCover | client/dikeclient/src/main/java/org/dike/hdfs/DikeHdfsFileSystem.java:187-194 | Reads that follow each other on one cursor return, put together, the file's bytes from the first read's position on, with no gap and no repetition. |
| DikeReadStream.CopyFromFile | client/dikeclient/src/main/java/org/dike/hdfs/DikeHdfsFileSystem.java:245 | The read puts the file's bytes at the stream position into `b[off..off+n]` and leaves the rest of `b` as it was. |
| DikeReadStream.FirstError | client/dikeclient/src/main/java/org/dike/hdfs/DikeHdfsFileSystem.java:223-259 | The error an attempt raises is that of its first failing step: a failed first hop or datanode fetch when no connection is cached, then opening a stream when none is open, then the read. There is none exactly when every step it takes succeeds. |
| DikeReadStream.FreshStreamSetsLength | client/dikeclient/src/main/java/org/dike/hdfs/DikeHdfsFileSystem.java:261-279 | When the attempt that ends a successful run opened its stream afresh, the file length is the cursor plus its Content-Length, or -1 without that header. |
| DikeReadStream.LengthKeptWithoutOpen | client/dikeclient/src/main/java/org/dike/hdfs/DikeHdfsFileSystem.java:261-279 | A run in which no attempt opens a stream leaves the file length as it was. |
| DikeReadStream.DikeReadRunner.constructor | client/dikeclient/src/main/java/org/dike/hdfs/DikeHdfsFileSystem.java:136-163 | The runner starts in `SEEK` at position 0 with an empty exclusion list. A redirect from the name node becomes `resolvedUrl` without its offset. A direct answer is kept as the cached connection. |
| DikeReadStream.DikeReadRunner.CloseInputStream | client/dikeclient/src/main/java/org/dike/hdfs/DikeHdfsFileSystem.java:282-289 | The stream and the connection are dropped and the runner enters the given state. |
| DikeReadStream.DikeReadRunner.Close | client/dikeclient/src/main/java/org/dike/hdfs/DikeHdfsFileSystem.java:197-199 | Close always ends in `CLOSED` with no stream and no connection, however often it is called. |
| DikeReadStream.DikeReadRunner.Seek | client/dikeclient/src/main/java/org/dike/hdfs/DikeHdfsFileSystem.java:201-206 | Seeking to the current position changes nothing, so the connection is kept. Seeking anywhere else moves the cursor, drops the connection and enters `SEEK`. |
| DikeReadStream.DikeReadRunner.GetUrl | client/dikeclient/src/main/java/org/dike/hdfs/DikeHdfsFileSystem.java:208-221 | Without a connection, the URL is rebuilt and carries the cursor as its offset and the current exclusion list. With a connection, the previous URL is reused. |
| DikeReadStream.DikeReadRunner.BaseConnect | client/dikeclient/src/main/java/org/dike/hdfs/DikeHdfsFileSystem.java:395-433 | A direct answer connects to the URL. A redirect connects to the named datanode with the same parameters. A failed fetch from that datanode puts its `host:port` at the head of the exclusion list and raises the error. |
| DikeReadStream.DikeReadRunner.Connect | client/dikeclient/src/main/java/org/dike/hdfs/DikeHdfsFileSystem.java:223-235 | A cached connection is reused untouched. A new connection is opened at the cursor, to the name node when it answers directly or to the datanode a redirect names. A failure leaves the runner `DISCONNECTED`. A failed fetch from the datanode a redirect named puts that datanode's `host:port` at the head of the exclusion list. In every other case the list is unchanged. |
| DikeReadStream.DikeReadRunner.InitializeInputStream | client/dikeclient/src/main/java/org/dike/hdfs/DikeHdfsFileSystem.java:261-279 | The connection URL without its offset becomes `resolvedUrl`. The file length becomes cursor plus Content-Length, or -1 without that header. The stream is bounded by Content-Length and starts at the connection's offset. The runner enters `OPEN`. |
| DikeReadStream.DikeReadRunner.GetResponse | client/dikeclient/src/main/java/org/dike/hdfs/DikeHdfsFileSystem.java:237-259 | The call fails exactly when opening a missing stream fails or the read fails, with the first of those errors. Opening a stream sets `resolvedUrl` to the connection's URL without its offset and the file length from Content-Length; with a stream already open both stay. Either way `resolvedUrl` names the connection's node. A success delivers the file's bytes at the cursor into `b` and leaves the runner `OPEN`. A failure puts that node at the head of the exclusion list, leaves `b` untouched and leaves the runner `DISCONNECTED`. |
| DikeReadStream.DikeReadRunner.Attempt | client/dikeclient/src/main/java/org/dike/hdfs/DikeHdfsFileSystem.java:451-455 | One pass of getUrl, connect and getResponse. It fails exactly when `FirstError` names an error, and with that error. Otherwise it delivers the file's bytes at the cursor. A failure leaves the runner `DISCONNECTED`. The node excluded is exact (`NamesFailure`): none for a failed first hop, the redirect's `host:port` for a failed fetch, and for a failure to open or read the stream the node the attempt connected to (cached connection, redirect datanode or name node, `ConnectedTo`), which `resolvedUrl` then names. The file length becomes `LengthAfter` of the attempt. |
| DikeReadStream.DikeReadRunner.Respond | client/dikeclient/src/main/java/org/dike/hdfs/DikeHdfsFileSystem.java:455 | The getResponse half of an attempt that connected: the same outcome as `Attempt`, with a stream failure naming the node of the connection it used. |
| DikeReadStream.DikeReadRunner.RunWithRetry | client/dikeclient/src/main/java/org/dike/hdfs/DikeHdfsFileSystem.java:449-466 | The loop ends at attempt k, the first attempt that is not retried; every earlier attempt failed with a replaceable token. The result succeeds exactly when attempt k raised nothing, fails with attempt k's error otherwise, and equals `RetryOutcome` of the attempts' tries (`EndedBy`). The node recorded is that of attempt k (`NamesFailure`), and it heads the exclusion list; `resolvedUrl` names the node attempt k read from. The file length is that left by the attempts up to k (`LengthAfterRun`). The exclusion lists of the run form a history `hist` (`Chain`). It starts at the list the run began with, and each attempt j up to k puts its node `fs[j]` in front (`Failures`: none, the redirect datanode or the node connected to). `earlier` is the list before attempt k, and the list after the loop is the last of the history. |
| DikeReadStream.DikeReadRunner.RetryTurn | client/dikeclient/src/main/java/org/dike/hdfs/DikeHdfsFileSystem.java:450-463 | One pass of the loop body: attempt i from the runner as the earlier attempts left it. `stop` holds exactly when the attempt succeeded or its error is not retried, and then the run's outcome is `EndedBy` attempt i. Otherwise the attempt failed with a retried error and every attempt up to i was retried (`AllRetried`). The exclusion list gains exactly attempt i's node `fs[i]` (`Recorded`), and the file length is `LengthAfterRun` of the attempts up to i. |
| DikeReadStream.HistoryRecords | client/dikeclient/src/main/java/org/dike/hdfs/DikeHdfsFileSystem.java:449-464 | A history of exclusion lists that grows by each attempt's node ends n steps in with the nodes of the first n attempts in front of where it began, the latest first (`RecordFailures` of `Named`), and never drops an entry (`Extends`). |
| DikeReadStream.FailuresStep | client/dikeclient/src/main/java/org/dike/hdfs/DikeHdfsFileSystem.java:422-431 | Recording the node of attempt n after those of attempts 0..n-1 gives the list for attempts 0..n. |
| DikeReadStream.DikeReadRunner.Reconnect | client/dikeclient/src/main/java/org/dike/hdfs/DikeHdfsFileSystem.java:173-181 | The reconnect after a seek either caches a connection at `resolvedUrl` with the cursor as offset and stays in `SEEK`, exactly when its retry loop succeeds, or leaves the runner `DISCONNECTED` with no connection. |
| DikeReadStream.DikeReadRunner.Read | client/dikeclient/src/main/java/org/dike/hdfs/DikeHdfsFileSystem.java:165-195 | A closed stream fails with `StreamClosed` and nothing changes. A zero-length read returns 0 and changes nothing. Otherwise the read ends at attempt k (`EndedBy`): it succeeds exactly when that attempt raised nothing and fails with that attempt's error otherwise. The first attempt starts from the cached connection, or from the reconnect after a seek when that succeeded (`StartConnection`). On success the file's bytes at the cursor are delivered and the cursor and byte statistics advance by the count, or -1 signals the end. A failure leaves the cursor and `b` unchanged and the runner `DISCONNECTED`. The node recorded is the one attempt k failed on (`NamesFailure`), and it heads the exclusion list the next request carries. The exclusion list before attempt k is the one the read began with, with the nodes of attempts 0..k-1 put in front; after the read it has those of attempts 0..k (`RecordFailures` of `Named(Failures(...))`). The file length is `LengthAfterRun` of the attempts. |
| DikeReadStream.DikeReadRunner.ReadAtCursor | client/dikeclient/src/main/java/org/dike/hdfs/DikeHdfsFileSystem.java:173-194 | The part of read past its two guards, with the same outcome: the attempt that ends the loop decides success or failure, the cursor advances by the count, a failure names the node of that attempt, and the file length is what the attempts left. The exclusion lists form the history of the attempts' nodes (`Chain`), as in `RunWithRetry`. |
| DikeReadStream.DikeReadRunner.GetPos | client/dikeclient/src/main/java/org/dike/hdfs/DikeHdfsFileSystem.java:297-299 | The position is where the open stream stands, and without a stream it is the offset the cached connection will request. |
| DikeReadStream.DikeHdfsInputStream.constructor | client/dikeclient/src/main/java/org/dike/hdfs/DikeHdfsFileSystem.java:79-81 | The stream owns a fresh runner over the file at position 0 in `SEEK`. |
| DikeReadStream.DikeHdfsInputStream.ReadByte | client/dikeclient/src/main/java/org/dike/hdfs/DikeHdfsFileSystem.java:83-86 | One byte is returned as 0..255 and equals the file's byte at the old cursor, which advances by one. At the end of the stream the result is -1 and the cursor stays. A closed stream fails with `StreamClosed` and the runner is unchanged. Otherwise the attempt that ends the read decides success or failure, a failure records the node of that attempt, and the file length is what the attempts left. The exclusion list is the one the read began with, with the nodes of attempts 0..k in front, so it only grew. |
| CsvScan.FindBoundary | dikeHDFS/src/DikeAsyncReader.hpp:216-231 | The result is the first position holding a delimiter while the quote flag is off, or `None` when there is no such position. |
| CsvScan.QuotedIsParity | dikeHDFS/src/DikeAsyncReader.hpp:149-151 | The quote flag after a prefix equals the parity of the number of quote characters in it. |
| CsvScan.OddQuotesHideDelimiter | dikeHDFS/src/DikeAsyncReader.hpp:149-158 | A delimiter preceded by an odd number of quotes is never a boundary. |
| CsvScan.BoundaryAcrossBuffers | dikeHDFS/src/DikeAsyncReader.hpp:250-265 | When the old buffer's tail has no boundary, the first boundary in the next buffer, scanned with the carried quote flag, is the first boundary of tail plus head. |
| CsvScan.NoBoundaryAcrossBuffers | dikeHDFS/src/DikeAsyncReader.hpp:250-274 | When neither part has a boundary, scanned with the carried flag, the joined text has none. |
| CsvScan.FindAcrossBuffers | dikeHDFS/src/DikeAsyncReader.hpp:233-274 | Scanning the tail and then the head with the carried quote flag finds the same boundary, shifted by the tail's length, as scanning tail plus head in one piece. |
| CsvScan.ColumnCountOfRecord | dikeHDFS/src/DikeAsyncReader.hpp:166-189 | The column count of a record of n plain fields followed by anything is n. |
| CsvScan.FirstFieldOfRecord | dikeHDFS/src/DikeAsyncReader.hpp:210-231 | In a record of plain fields, the first field boundary ends exactly the first field, and what follows the delimiter is the rest of the record. |
| CsvScan.RecordEndOfRecord | dikeHDFS/src/DikeAsyncReader.hpp:145-164 | In a record of plain fields, the first record boundary is the record's final newline. |
| DikeAsync.DikeRecord.constructor | dikeHDFS/src/DikeAsyncReader.hpp:34-42 | Each of the first `col` columns starts with no field and length 0, in fresh arrays sized for `MAX_COLUMNS` columns. |
| DikeAsync.Scan | dikeHDFS/src/DikeAsyncReader.hpp:216-231 | The scanning loop returns exactly `FindBoundary` of the bytes it walks. When nothing is found, it also returns the quote flag at the end. |
| DikeAsync.CopyIntoSlot | dikeHDFS/src/DikeAsyncReader.hpp:239-244 | The copy loop writes the source bytes into the slot at the given column. Every other byte of memory is unchanged. |
| DikeAsync.StraddleWrites | dikeHDFS/src/DikeAsyncReader.hpp:233-274 | The as-written straddle path stores at least the whole tail and at most tail plus head. |
| DikeAsync.StraddleWritesWholeField | dikeHDFS/src/DikeAsyncReader.hpp:233-274 | What the as-written straddle path stores is the whole field of tail plus head through its delimiter, or all of it. Nothing bounds it by `FIELD_SIZE`. |
| DikeAsync.StraddleOverrunsSlot | dikeHDFS/src/DikeAsyncReader.hpp:239-264 | A 1024-byte field that ends at the start of the next buffer makes the as-written path store 1025 bytes into a 1024-byte slot. |
| DikeAsync.DikeAsyncReader.constructor | dikeHDFS/src/DikeAsyncReader.hpp:80-97 | The reader starts on the first ready buffer with the others queued in order, nothing read, nothing held and all counters at 0. |
| DikeAsync.DikeAsyncReader.IsEOF | dikeHDFS/src/DikeAsyncReader.hpp:138-143 | Reading stops exactly when a block limit is set and more bytes than one block have been read; without a limit it never stops. |
| DikeAsync.DikeAsyncReader.SeekRecord | dikeHDFS/src/DikeAsyncReader.hpp:145-164 | On success the reader skips exactly through the first newline outside quotes and counts those bytes as read. On failure, when there is no such newline, nothing moves. |
| DikeAsync.DikeAsyncReader.GetColumnCount | dikeHDFS/src/DikeAsyncReader.hpp:166-189 | The result is `ColumnCount` of the unread bytes. |
| DikeAsync.DikeAsyncReader.HoldBuffer | dikeHDFS/src/DikeAsyncReader.hpp:277-281 | The buffer is appended to the held queue. |
| DikeAsync.DikeAsyncReader.GetBuffer | dikeHDFS/src/DikeAsyncReader.hpp:305-313 | The result is the head of the work queue, which is popped. |
| DikeAsync.DikeAsyncReader.PushBuffer | dikeHDFS/src/DikeAsyncReader.hpp:294-303 | The buffer joins the free queue. The push counter grows by one, and the empty counter grows by one exactly when the free queue was empty. |
| DikeAsync.DikeAsyncReader.ReleaseBuffers | dikeHDFS/src/DikeAsyncReader.hpp:283-292 | Every held buffer moves to the free queue, oldest first, and is counted. |
| DikeAsync.DikeAsyncReader.ReadField | dikeHDFS/src/DikeAsyncReader.hpp:210-275 | On success the stored field is the text before the first unquoted field delimiter of the unread bytes, possibly running into the next buffer. A field that ends in the current buffer points at the old cursor in that buffer; one that runs into the next points at its memory slot. Its length counts the terminator, the stream resumes just after the delimiter, and the bytes read grow by that length. On failure the field does not end or does not fit its slot, and no memory is written. Other columns are unchanged. |
| DikeAsync.DikeAsyncReader.CutInPlace | dikeHDFS/src/DikeAsyncReader.hpp:214-227 | A field ending at byte k of the buffer is left in place: the column points at the old cursor in the buffer and the delimiter byte becomes a NUL. Its length is k+1, and the cursor moves past the delimiter. No other byte of the buffer changes. |
| DikeAsync.DikeAsyncReader.ReadStraddled | dikeHDFS/src/DikeAsyncReader.hpp:233-274 | The column points at its memory slot, the current buffer is held and the next one taken. The field is then cut from tail plus head, or the path fails because no delimiter ends it or it does not fit. |
| DikeAsync.DikeAsyncReader.FillFromNext | dikeHDFS/src/DikeAsyncReader.hpp:244-274 | With the column on its slot, the next buffer is scanned from the carried quote flag. The field is the text of tail plus head before its first unquoted delimiter, stored when it fits. Otherwise the path fails with memory untouched. |
| DikeAsync.DikeAsyncReader.CopyStraddled | dikeHDFS/src/DikeAsyncReader.hpp:237-264 | When tail plus the head up to the delimiter fits its slot, it is stored there with length \|tail\|+k+1, the field is the first cut of tail plus head, and the cursor moves past the delimiter. Otherwise the field is unfit and nothing is written. |
| DikeAsync.DikeAsyncReader.NextBuffer | dikeHDFS/src/DikeAsyncReader.hpp:246-248 | The current buffer is held and the head of the work queue becomes current. |
| DikeAsync.DikeAsyncReader.FillSlot | dikeHDFS/src/DikeAsyncReader.hpp:239-264 | The slot holds tail plus the head up to the delimiter, followed by a NUL, and its length is set. Other slots are unchanged. |
| DikeAsync.DikeAsyncReader.Consume | dikeHDFS/src/DikeAsyncReader.hpp:258-263 | The cursor moves past byte k and the byte count grows by n. |
| DikeAsync.DikeAsyncReader.ReadRecord | dikeHDFS/src/DikeAsyncReader.hpp:191-208 | Past the block limit the reader returns 1 and changes nothing. Otherwise it releases held buffers, counts the record, and reads the columns in order. The held queue followed by the current buffer and the work queue is then the old current buffer and work queue: buffers a field finishes move to the held queue in order, and none is lost or made. Each column read holds the next field cut from the unread bytes, with a length that counts its terminator, and the bytes read grow by the total. On success all columns are read. On failure, at the first column that fails, the rest of the buffer it began in has no delimiter and the field does not end or does not fit. |
| DikeAsync.DikeAsyncReader.ReadFields | dikeHDFS/src/DikeAsyncReader.hpp:198-207 | The column loop reads fields in turn and stops with 1 at the first that fails. Every column before it holds its cut field. On 0 every column holds its field and the stream resumes after the last delimiter. The held queue followed by the live buffers is the same sequence before and after. |
| DikeAsync.DikeAsyncReader.ReadColumn | dikeHDFS/src/DikeAsyncReader.hpp:199-203 | One turn of the loop: a field that is read extends the cuts and keeps the earlier columns as they were. A field that fails leaves the earlier columns and the byte count as they were. The held queue followed by the live buffers is the same sequence before and after. |
| DikeAsync.RecordInBufferIsReady | dikeHDFS/src/DikeAsyncReader.hpp:245-247 | A record of plain fields that ends in the current buffer can be read with no buffer queued, since getBuffer is called only for a field that runs past its buffer. |
| CsvScan.CutsOfRecord | dikeHDFS/src/DikeAsyncReader.hpp:198-207 | Cutting fields from the text of a record of plain fields yields exactly those fields, and what follows the record is left. |
| CsvScan.CutsAgree | dikeHDFS/src/DikeAsyncReader.hpp:198-207 | The fields cut from a stream are determined by its bytes: two lists of cuts of the same stream agree on their common length. |
| CsvScan.CutsConsume | dikeHDFS/src/DikeAsyncReader.hpp:223-225 | The cut fields, one delimiter after each, and what is left after them account for every byte of the stream. |

## Left out

- Threads: the worker thread (`startWorker`, `worker`), the semaphores and `q_lock` are not modelled. The buffers the worker has filled are given to the reader's constructor as a sequence.
- DikeAsync.DikeAsyncReader.GetBuffer: requires a non-empty work queue. The source blocks on `work_sem` until the worker delivers a buffer.
- DikeAsync.DikeAsyncReader.ReadField: requires a ready buffer when the field does not end in the current one. The source would block for it.
- DikeAsync.DikeAsyncReader.ReadRecord: before the block limit only, requires a ready buffer for each field that runs past the buffer it starts in, up to the first field that fails (`Ready`). The source would block on `getBuffer` for such a field. A record that ends in the current buffer needs no queued buffer (`RecordInBufferIsReady`). Past the block limit the source returns 1 at once, and the model requires nothing there.
- DikeAsync.DikeRecord.constructor: requires `col <= MAX_COLUMNS`. For more columns the source writes past its fixed arrays.
- DikeAsync.DikeRecord.constructor: columns from `nCol` on are left uninitialised by the source; the model states nothing about them.
- DikeAsync.DikeAsyncReader.IsEOF: `bytesRead` is unbounded in the model. The source's `int` would overflow past 2^31-1 and is compared as a `uint64`.
- DikeAsync.DikeAsyncReader.ReadField: the straddle path follows the corrected behaviour (see Findings). It scans the next buffer and checks the fit before copying, and writes no memory on failure. The source copies the tail first.
- Memory layout: `fieldMemory` is modelled as a two-dimensional array. A write past the end of one slot into the next cannot be expressed and is shown through `StraddleWrites` instead. `malloc`, `free` and the destructors are not modelled.
- `DikeBuffer.hpp`, `DikeIO.hpp` and `DikeSQL` are not part of this model. A buffer is a byte array with a read position and an end.
- `initRecord` is represented by the `DikeRecord` handed to the reader's constructor. `blockOffset` is never used by the core and is omitted.
- Logging to `std::cout` is omitted.
- HTTP and security plumbing: opening connections, `validateResponse`, `UserGroupInformation`/`doAs`, `checkTGTAndReloginFromKeytab` and `replaceExpiredDelegationToken` are not modelled. How each try goes is a parameter (`Attempt`, `Try`).
- `toUrl` and `removeOffsetParam` belong to the superclass, which is not part of this model. They become `Url` values and `StripOffsets`.
- DikeReadStream.DikeReadRunner.Read: the nested `DikeURLRunner` that reconnects after a seek is reduced to its retry outcome (`RetryOutcome`). Its own exclusion list is discarded with it, as in the source.
- DikeReadStream.DikeReadRunner.RunWithRetry: requires that some attempt ends the loop. The source's loop has no retry ceiling and can run forever.
- DikeReadStream.DikeReadRunner.Read: requires that some attempt ends both the reconnect loop and the read loop, for the same reason.
- DikeReadStream.DikeHdfsInputStream.ReadByte: requires that the same attempt sequences end.
- DikeReadStream.DikeReadRunner.Seek: takes a natural number. The source accepts any `long`, and a negative position only fails at the next request.
- `long` arithmetic on `pos` and `fileLength` is unbounded in the model.
- DikeReadStream.DikeReadRunner.BaseConnect: a redirect is modelled as the same URL with the datanode's authority. The name node's `Location` is assumed to keep the request's query (buffer size, offset, exclusion list) and to change only the host and port. The source uses whatever `Location` says. The cursor's content correctness rests on this.
- DikeReadStream.DikeReadRunner.InitializeInputStream: succeeds for any `bufferSize`. The source's `new BufferedInputStream(inStream, bufferSize)` throws `IllegalArgumentException` when `bufferSize <= 0`.
- DikeReadStream.DikeReadRunner.constructor: takes only a probe that succeeded. A failing probe makes `getRedirectedUrl`, and so the constructor, throw, and no runner exists.
- A `Content-Length` that does not parse (`NumberFormatException`) is not modelled.
- Closing the connection (`IOUtils.close`, `disconnect`) has no effect in the model beyond dropping it.
- `DikeHdfsInputStream.read(b, off, len)`, `seek`, `getPos` and `close` forward unchanged to the runner members modelled above.
- DikeReadStream.DikeReadRunner.Read: takes natural `off` and `len` and requires `off + len <= b.Length`. In the source a negative or oversized `off`/`len` reaches `in.read` (DikeHdfsFileSystem.java:245), which throws `IndexOutOfBoundsException`. The catch at :247 handles only `IOException`, so no datanode is excluded and the runner is not disconnected. After a `SEEK` the stream has already been opened, so the runner is left `OPEN`. That path is not modelled.
- `seekToNewSource`, which always returns false, and `setFileLength`/`getFileLength`, which are plain field access, are not modelled.
- Every datanode is assumed to serve the same bytes (`file`).

## Findings

| source | as written | input that shows it | evidently intended | confidence | as-written member | corrected member |
|---|---|---|---|---|---|---|
| dikeHDFS/src/DikeAsyncReader.hpp:233-271 | The straddle path copies the whole tail of the buffer, then the next buffer's bytes up to and including the delimiter, into `fieldMemory[pos]` with no bound. | A field of 1024 bytes without quotes or delimiters at the end of a buffer, with the next buffer starting with `,`: 1025 bytes are written into the 1024-byte slot. | A field that does not fit its `FIELD_SIZE` slot is rejected (or bounded) without writing past the slot. | not executed | DikeAsync.StraddleOverrunsSlot | DikeAsync.DikeAsyncReader.ReadField |
