/**
 * The read stream of DikeHdfsFileSystem.java: DikeReadRunner, the state machine that
 * keeps a byte cursor over a remote file and (re)opens ranged connections to the
 * datanodes, together with the parts of the base runner it runs (getUrl, connect with
 * its redirect hop, runWithRetry) and the single-byte read of DikeHdfsInputStream.
 *
 * The outside world is a parameter: the bytes every datanode serves for the file are
 * `file`, a connection is known by its URL (whose offset parameter says where in
 * `file` its body starts), and what happens during each request is given by an
 * Attempt value.
 */
module DikeReadStream {
  import opened Wrappers
  import opened WebHdfs

  datatype RunnerState = SEEK | OPEN | DISCONNECTED | CLOSED

  /** An HTTP connection, known by the URL it was opened against. */
  datatype Connection = Connection(url: Url)

  /**
   * The BufferedInputStream over the BoundedInputStream over a response body:
   * `at` is the index in the file of the next byte it delivers, `left` how many more
   * bytes the bound allows (None when there was no Content-Length).
   */
  datatype InStream = InStream(at: nat, left: Option<nat>)

  /** The first request of the base connect, sent to the name node. */
  datatype Hop =
    | Direct                       // answered with the expected code: no second hop
    | Redirect(datanode: Authority) // a Location naming a datanode; the query is kept
    | HopFailed(error: IoError)

  /** What the world does during one iteration of runWithRetry. */
  datatype Attempt = Attempt(
    hop: Hop,                     // the first request of a new connection
    fetch: Option<IoError>,       // failure of the second request, to the datanode
    contentLength: Option<int>,   // the Content-Length header of the response
    openError: Option<IoError>,   // failure of conn.getInputStream()
    readError: Option<IoError>,   // failure of in.read
    chunk: nat,                   // how many bytes the transport has ready
    tokenReplaced: bool)          // the answer of replaceExpiredDelegationToken

  /** The world during one call of read: the nested ranged-reconnect run, then the runner's own attempts. */
  datatype ReadEnv = ReadEnv(reconnect: seq<Try>, attempts: seq<Attempt>)

  /** The successful outcomes of the probe the constructor sends; a failing probe makes the constructor throw. */
  datatype Probe = ProbeDirect | ProbeRedirect(location: Url)

  /** The OPEN operation does not require authentication. */
  const OPEN_REQUIRES_AUTH := false

  /** The failure, if any, an attempt can raise: the errors it offers at each step. */
  predicate Raises(a: Attempt, e: IoError)
  {
    a.hop == HopFailed(e) || a.fetch == Some(e) || a.openError == Some(e) || a.readError == Some(e)
  }

  /** An attempt that surely leaves the retry loop: whatever it raises is not retried. */
  predicate Ends(a: Attempt)
  {
    !a.tokenReplaced || !Raises(a, InvalidToken)
  }

  /**
   * The attempt gets a connection: one is cached, or the name node answers directly, or
   * the datanode it redirects to answers.
   */
  predicate Connects(a: Attempt, cached: bool)
  {
    cached || a.hop.Direct? || (a.hop.Redirect? && a.fetch.None?)
  }

  /**
   * The node an attempt that connects reads from: that of the cached connection, else the
   * datanode of a redirect, else the name node that answered directly.
   */
  function ConnectedTo(a: Attempt, start: Option<Connection>, nameNode: Authority): Authority
  {
    if start.Some? then start.value.url.authority
    else if a.hop.Redirect? then a.hop.datanode
    else nameNode
  }

  /**
   * The file length after an attempt: an attempt that opens a new stream sets it from
   * Content-Length (cursor plus length, or -1 without the header); any other keeps it.
   */
  function LengthAfter(a: Attempt, cached: bool, hasStream: bool, before: int, p: nat): int
  {
    if Connects(a, cached) && !hasStream && a.openError.None? then
      (if a.contentLength.Some? then p + a.contentLength.value else -1)
    else before
  }

  /** The file length after the first n attempts of a run of runWithRetry at cursor p. */
  function LengthAfterRun(attempts: seq<Attempt>, n: nat, cached: bool, hasStream: bool, before: int, p: nat): int
    requires n <= |attempts|
    decreases n
  {
    if n == 0 then before
    else LengthAfter(attempts[n - 1], n == 1 && cached, n == 1 && hasStream,
                     LengthAfterRun(attempts, n - 1, cached, hasStream, before, p), p)
  }

  /**
   * The attempt that ends a successful run opened its stream afresh, unless it was the
   * first and a stream was open: the file length then comes from its Content-Length.
   */
  lemma FreshStreamSetsLength(attempts: seq<Attempt>, k: nat, cached: bool, hasStream: bool, before: int, p: nat)
    requires k < |attempts| && FirstError(attempts[k], k == 0 && cached, k == 0 && hasStream).None?
    requires !(k == 0 && hasStream)
    ensures LengthAfterRun(attempts, k + 1, cached, hasStream, before, p) ==
            if attempts[k].contentLength.Some? then p + attempts[k].contentLength.value else -1
  {
  }

  /** A run none of whose attempts opens a stream leaves the file length as it was. */
  lemma {:induction false} LengthKeptWithoutOpen(attempts: seq<Attempt>, n: nat, cached: bool, hasStream: bool,
                                                 before: int, p: nat)
    requires n <= |attempts|
    requires forall j :: 0 <= j < n ==>
               !(Connects(attempts[j], j == 0 && cached) && !(j == 0 && hasStream) && attempts[j].openError.None?)
    ensures LengthAfterRun(attempts, n, cached, hasStream, before, p) == before
    decreases n
  {
    if n > 0 {
      LengthKeptWithoutOpen(attempts, n - 1, cached, hasStream, before, p);
    }
  }

  /**
   * The error an attempt raises: that of its first step that fails. Without a cached
   * connection the hop to the name node and the fetch from the datanode come first; then
   * the stream is opened, unless one is open; then the stream is read.
   */
  function FirstError(a: Attempt, cached: bool, hasStream: bool): (e: Option<IoError>)
    ensures e.Some? ==> Raises(a, e.value)
    ensures e.None? <==>
              && Connects(a, cached)
              && (hasStream || a.openError.None?)
              && a.readError.None?
  {
    if !cached && a.hop.HopFailed? then Some(a.hop.error)
    else if !cached && a.hop.Redirect? && a.fetch.Some? then a.fetch
    else if !hasStream && a.openError.Some? then a.openError
    else a.readError
  }

  /** The attempt as runWithRetry sees it: the error it raises and whether the token was replaced. */
  function TryOf(a: Attempt, cached: bool, hasStream: bool): Try
  {
    Try(FirstError(a, cached, hasStream), a.tokenReplaced)
  }

  /**
   * The tries of a run of runWithRetry: the first attempt finds the runner as it is;
   * every later one follows a failure and so finds it disconnected.
   */
  function Tries(attempts: seq<Attempt>, cached: bool, hasStream: bool): seq<Try>
  {
    seq(|attempts|, i requires 0 <= i < |attempts| => TryOf(attempts[i], i == 0 && cached, i == 0 && hasStream))
  }

  /**
   * The run of runWithRetry over attempts ended with the k-th, whose error decides r: every
   * earlier attempt was retried, the k-th was not, and r is what RetryOutcome gives.
   */
  ghost predicate EndedBy<T>(r: Result<T, IoError>, k: nat, attempts: seq<Attempt>, cached: bool, hasStream: bool)
  {
    && k < |attempts|
    && var ts := Tries(attempts, cached, hasStream);
       && (forall j :: 0 <= j < k ==> Retried(ts[j], OPEN_REQUIRES_AUTH))
       && EndsRetry(ts[k], OPEN_REQUIRES_AUTH)
       && (r.Ok? <==> ts[k].error.None?)
       && (r.Err? ==> r.error == ts[k].error.value)
       && RetryOutcome(ts, OPEN_REQUIRES_AUTH).Ok? == r.Ok?
       && (r.Err? ==> RetryOutcome(ts, OPEN_REQUIRES_AUTH) == Err(r.error))
       && (r.Ok? ==> RetryOutcome(ts, OPEN_REQUIRES_AUTH) == Ok(k))
  }

  /** The first n tries were all retried. */
  predicate AllRetried(ts: seq<Try>, n: nat)
    requires n <= |ts|
    decreases n
  {
    n == 0 || (AllRetried(ts, n - 1) && Retried(ts[n - 1], OPEN_REQUIRES_AUTH))
  }

  lemma {:induction false} AllRetriedEach(ts: seq<Try>, n: nat)
    requires n <= |ts| && AllRetried(ts, n)
    ensures forall j :: 0 <= j < n ==> Retried(ts[j], OPEN_REQUIRES_AUTH)
    decreases n
  {
    if n > 0 {
      AllRetriedEach(ts, n - 1);
    }
  }

  /** A run whose attempts before the k-th were all retried, and whose k-th was not, ended with the k-th. */
  lemma RunEndedBy<T>(r: Result<T, IoError>, k: nat, attempts: seq<Attempt>, cached: bool, hasStream: bool)
    requires k < |attempts|
    requires AllRetried(Tries(attempts, cached, hasStream), k)
    requires var e := FirstError(attempts[k], k == 0 && cached, k == 0 && hasStream);
             && EndsRetry(Try(e, attempts[k].tokenReplaced), OPEN_REQUIRES_AUTH)
             && (r.Ok? <==> e.None?) && (r.Err? ==> r.error == e.value)
    ensures EndedBy(r, k, attempts, cached, hasStream)
  {
    AllRetriedEach(Tries(attempts, cached, hasStream), k);
    RetryOutcomeAt(Tries(attempts, cached, hasStream), k, OPEN_REQUIRES_AUTH);
  }

  /**
   * The datanode a failed attempt a, starting from the connection start, put in front of
   * the exclusion list: the one a redirect named when the fetch from it failed, the node
   * the attempt connected to when the stream failed to open or read, and none when the hop
   * to the name node failed. An attempt that connects leaves resolved on that node.
   */
  ghost predicate NamesFailure<T>(r: Result<T, IoError>, failed: Option<string>, a: Attempt,
                                  start: Option<Connection>, nameNode: Authority, resolved: Option<Url>)
  {
    && (start.None? && a.hop.HopFailed? ==> failed.None?)
    && (start.None? && a.hop.Redirect? && a.fetch.Some? ==> failed == Some(HostPort(a.hop.datanode)))
    && (Connects(a, start.Some?) ==>
          resolved.Some? && resolved.value.authority == ConnectedTo(a, start, nameNode))
    && (r.Err? && Connects(a, start.Some?) ==> failed == Some(AuthorityText(ConnectedTo(a, start, nameNode))))
  }

  /**
   * The datanode attempt a puts in front of the exclusion list, starting from the
   * connection start with or without an open stream: the redirect's host:port when the
   * fetch from it fails, the node it connected to when the stream fails to open or read,
   * and none when it succeeds or the hop to the name node fails.
   */
  function FailedNode(a: Attempt, start: Option<Connection>, hasStream: bool, nameNode: Authority): Option<string>
  {
    if Connects(a, start.Some?) then
      (if FirstError(a, start.Some?, hasStream).Some? then Some(AuthorityText(ConnectedTo(a, start, nameNode)))
       else None)
    else if a.hop.Redirect? then Some(HostPort(a.hop.datanode))
    else None
  }

  /**
   * The node each attempt of a run of runWithRetry would put in front of the exclusion
   * list: the first attempt finds the runner as it is, every later one disconnected.
   */
  function Failures(attempts: seq<Attempt>, start: Option<Connection>, hasStream: bool, nameNode: Authority)
    : (fs: seq<Option<string>>)
    ensures |fs| == |attempts|
  {
    seq(|attempts|, i requires 0 <= i < |attempts| =>
          FailedNode(attempts[i], if i == 0 then start else None, i == 0 && hasStream, nameNode))
  }

  /** The nodes named in the first n entries of fs, oldest first. */
  function Named(fs: seq<Option<string>>, n: nat): seq<string>
    requires n <= |fs|
    decreases n
  {
    if n == 0 then []
    else Named(fs, n - 1) + (if fs[n - 1].Some? then [fs[n - 1].value] else [])
  }

  /**
   * The exclusion list after n + 1 attempts of a run: that after n, with the node the
   * next attempt names, if any, put in front.
   */
  lemma FailuresStep(fs: seq<Option<string>>, n: nat, before: Option<string>, excl: Option<string>,
                     after: Option<string>)
    requires n < |fs| && excl == RecordFailures(Named(fs, n), before)
    requires fs[n].None? ==> after == excl
    requires fs[n].Some? ==> after == RecordFailure(fs[n].value, excl)
    ensures after == RecordFailures(Named(fs, n + 1), before)
  {
    if fs[n].Some? {
      RecordFailuresSnoc(Named(fs, n), fs[n].value, before);
    } else {
      assert Named(fs, n) + [] == Named(fs, n);
    }
  }

  /** The exclusion list excl after an attempt that names the node f, if any. */
  function Recorded(f: Option<string>, excl: Option<string>): Option<string>
  {
    if f.Some? then RecordFailure(f.value, excl) else excl
  }

  /**
   * hist is a history of n steps of exclusion lists: each list is the one before it with
   * the node of the next attempt, fs[j], recorded.
   */
  ghost predicate Chain(fs: seq<Option<string>>, hist: seq<Option<string>>, n: nat)
  {
    n < |hist| && n <= |fs| && forall j :: 0 <= j < n ==> hist[j + 1] == Recorded(fs[j], hist[j])
  }

  /**
   * A history of exclusion lists ends n steps in with the nodes of the first n attempts
   * in front of where it began, and only ever grew.
   */
  lemma {:induction false} HistoryRecords(fs: seq<Option<string>>, hist: seq<Option<string>>, n: nat)
    requires Chain(fs, hist, n)
    ensures hist[n] == RecordFailures(Named(fs, n), hist[0])
    ensures Extends(hist[0], hist[n])
    decreases n
  {
    if n > 0 {
      HistoryRecords(fs, hist, n - 1);
      FailuresStep(fs, n - 1, hist[0], hist[n - 1], hist[n]);
    }
    FailuresOnlyGrow(Named(fs, n), hist[0]);
  }

  /** How many bytes a stream can still deliver from file. */
  function Available(file: seq<bv8>, s: InStream): nat
  {
    var body := if s.at < |file| then |file| - s.at else 0;
    if s.left.Some? && s.left.value < body then s.left.value else body
  }

  /**
   * What in.read(b, off, len) returns for len > 0 when avail bytes remain: -1 at the end
   * of the stream, otherwise at least one and at most len bytes, as many as the transport
   * has ready.
   */
  function ReadCount(len: nat, avail: nat, chunk: nat): (n: int)
    requires len > 0
    ensures n == -1 <==> avail == 0
    ensures avail > 0 ==> 1 <= n <= len && n <= avail
    ensures avail > 0 && 1 <= chunk <= Min(len, avail) ==> n == chunk
  {
    if avail == 0 then -1 else Max(1, Min(chunk, Min(len, avail)))
  }

  /** The caller's buffer after a read of n bytes at off from position p of file (-1: untouched). */
  ghost predicate Delivered(file: seq<bv8>, before: seq<bv8>, after: seq<bv8>, off: nat, len: nat, p: nat, n: int)
  {
    |after| == |before| &&
    ((n == -1 && after == before) ||
     (0 <= n <= len && off + n <= |before| && p + n <= |file| &&
      after[..off] == before[..off] &&
      after[off..off + n] == file[p..p + n] &&
      after[off + n..] == before[off + n..]))
  }

  /** Consecutive reads that each deliver the bytes at the cursor, then move it on. */
  ghost predicate Consecutive(file: seq<bv8>, p: nat, chunks: seq<seq<bv8>>)
    decreases |chunks|
  {
    chunks == [] ||
    (p + |chunks[0]| <= |file| && chunks[0] == file[p..p + |chunks[0]|] &&
     Consecutive(file, p + |chunks[0]|, chunks[1..]))
  }

  function Concat(chunks: seq<seq<bv8>>): seq<bv8>
    decreases |chunks|
  {
    if chunks == [] then [] else chunks[0] + Concat(chunks[1..])
  }

  /**
   * Reads that follow each other on one stream return, put together, the file's bytes
   * from where the first one started: nothing is skipped and nothing is repeated.
   */
  lemma {:induction false} ConsecutiveReadsCover(file: seq<bv8>, p: nat, chunks: seq<seq<bv8>>)
    requires p <= |file| && Consecutive(file, p, chunks)
    ensures p + |Concat(chunks)| <= |file|
    ensures Concat(chunks) == file[p..p + |Concat(chunks)|]
    decreases |chunks|
  {
    if chunks != [] {
      var q := p + |chunks[0]|;
      assert q <= |file| && Consecutive(file, q, chunks[1..]);
      ConsecutiveReadsCover(file, q, chunks[1..]);
      var rest := Concat(chunks[1..]);
      assert Concat(chunks) == chunks[0] + rest;
      assert file[p..q + |rest|] == file[p..q] + file[q..q + |rest|];
    }
  }

  /** The stream's copy of n bytes of the body, starting at file[at], into b[off..off + n]. */
  method CopyFromFile(file: seq<bv8>, at: nat, b: array<bv8>, off: nat, n: nat)
    requires at + n <= |file| && off + n <= b.Length
    modifies b
    ensures forall len :: n <= len ==> Delivered(file, old(b[..]), b[..], off, len, at, n)
  {
    forall i | off <= i < off + n {
      b[i] := file[at + (i - off)];
    }
    assert b[off..off + n] == file[at..at + n];
  }

  class DikeReadRunner {
    /** The bytes every datanode serves for the file. */
    const file: seq<bv8>
    /** The name node of the file system and the path of the file. */
    const nameNode: Authority
    const path: string
    const bufferSize: int

    var runnerState: RunnerState
    var cachedConnection: Option<Connection>
    var fileLength: int
    var pos: nat
    var originalUrl: Url
    var resolvedUrl: Option<Url>
    var input: Option<InStream>           // the field `in`
    var parameters: seq<Param>
    var excludeDatanodes: Option<string>  // the value of the ExcludeDatanodesParam
    var redirectHost: Option<string>
    var bytesReadStat: int                // statistics.incrementBytesRead

    /**
     * The runner's invariant, while the stream is `ahead` bytes past the cursor (only
     * between the stream read and the cursor update inside read): a stream exists exactly
     * in the OPEN state, it reads the file at the cursor, and a connection waiting for its
     * stream was opened at the cursor.
     */
    ghost predicate Ahead(ahead: nat)
      reads this
    {
      && (input.Some? <==> runnerState == OPEN)
      && (input.Some? ==> cachedConnection.Some? && resolvedUrl.Some? && input.value.at == pos + ahead)
      && (input.Some? ==> resolvedUrl == Some(StripOffset(cachedConnection.value.url)))
      && (input.None? ==> ahead == 0)
      && (input.None? && cachedConnection.Some? ==> OffsetOf(cachedConnection.value.url.params) == pos)
      && ResolvedWithoutOffset()
    }

    ghost predicate Valid()
      reads this
    {
      Ahead(0)
    }

    /** resolvedUrl never carries an offset parameter. */
    ghost predicate ResolvedWithoutOffset()
      reads this
    {
      resolvedUrl.Some? ==> forall q :: q in resolvedUrl.value.params ==> !q.Offset?
    }

    /** toUrl(op, path, params): a request to the name node. */
    function ToUrl(params: seq<Param>): Url
      reads this
    {
      Url(nameNode, path, params)
    }

    /**
     * The constructor with getRedirectedUrl: a probe to the name node either redirects,
     * and the datanode URL without its offset becomes resolvedUrl, or answers directly,
     * and that connection is kept.
     */
    constructor (file: seq<bv8>, nameNode: Authority, path: string, bufferSize: int, probe: Probe)
      ensures Valid()
      ensures this.file == file && this.nameNode == nameNode && this.path == path && this.bufferSize == bufferSize
      ensures runnerState == SEEK && pos == 0 && fileLength == 0 && input.None?
      ensures excludeDatanodes.None? && redirectHost.None? && bytesReadStat == 0
      ensures parameters == [BufferSize(bufferSize)]
      ensures originalUrl == Url(nameNode, path, [BufferSize(bufferSize)])
      ensures probe.ProbeRedirect? ==> resolvedUrl == Some(StripOffset(probe.location)) && cachedConnection.None?
      ensures probe.ProbeDirect? ==>
                resolvedUrl.None? && cachedConnection == Some(Connection(Url(nameNode, path, [BufferSize(bufferSize)])))
    {
      this.file := file;
      this.nameNode := nameNode;
      this.path := path;
      this.bufferSize := bufferSize;
      runnerState := SEEK;
      fileLength := 0;
      pos := 0;
      input := None;
      excludeDatanodes := None;
      redirectHost := None;
      bytesReadStat := 0;
      parameters := [BufferSize(bufferSize)];
      // getRedirectedUrl
      var probeUrl := Url(nameNode, path, [BufferSize(bufferSize)]);
      if probe.ProbeRedirect? {
        resolvedUrl := Some(StripOffset(probe.location));
        cachedConnection := None;
      } else {
        resolvedUrl := None;
        cachedConnection := Some(Connection(probeUrl));
      }
      originalUrl := Url(nameNode, path, UrlParams([BufferSize(bufferSize)], None));
    }

    /** closeInputStream(rs): drop the stream and the connection and move to rs. */
    method CloseInputStream(rs: RunnerState)
      requires rs != OPEN && ResolvedWithoutOffset()
      modifies this`input, this`cachedConnection, this`runnerState
      ensures input.None? && cachedConnection.None? && runnerState == rs
      ensures Valid()
    {
      input := None;
      cachedConnection := None;
      runnerState := rs;
    }

    /** close(): always ends CLOSED with no connection, however often it is called. */
    method Close()
      requires Valid()
      modifies this`input, this`cachedConnection, this`runnerState
      ensures runnerState == CLOSED && input.None? && cachedConnection.None?
      ensures Valid()
    {
      CloseInputStream(CLOSED);
    }

    /** seek(newPos): moving the cursor drops the connection; staying put changes nothing. */
    method Seek(newPos: nat)
      requires Valid()
      modifies this`pos, this`input, this`cachedConnection, this`runnerState
      ensures Valid()
      ensures newPos == old(pos) ==> unchanged(this)
      ensures newPos != old(pos) ==>
                pos == newPos && runnerState == SEEK && cachedConnection.None? && input.None?
    {
      if pos != newPos {
        pos := newPos;
        CloseInputStream(SEEK);
      }
    }

    /**
     * getUrl: without a connection the URL is rebuilt from the buffer size, the cursor
     * and the exclusion list; with one the last URL is reused.
     */
    method GetUrl() returns (url: Url)
      requires Valid()
      modifies this`parameters, this`originalUrl
      ensures cachedConnection.None? ==>
                parameters == [BufferSize(bufferSize), Offset(pos)] &&
                url == ToUrl(UrlParams(parameters, excludeDatanodes)) &&
                OffsetOf(url.params) == pos && ExclusionOf(url.params) == excludeDatanodes
      ensures cachedConnection.Some? ==> url == old(originalUrl) && parameters == old(parameters)
      ensures originalUrl == url
    {
      if cachedConnection.None? {
        parameters := [BufferSize(bufferSize), Offset(pos)];
        originalUrl := ToUrl(UrlParams(parameters, excludeDatanodes));
        RebuiltUrlParams(bufferSize, pos, excludeDatanodes);
      }
      url := originalUrl;
    }

    /**
     * The base connect for the OPEN operation of a runner that is not yet redirected
     * and follows redirects: ask the name node, then fetch from the datanode it names.
     * A failed fetch puts that datanode's host:port in front of the exclusion list.
     */
    method BaseConnect(url: Url, a: Attempt) returns (r: Result<Connection, IoError>)
      modifies this`redirectHost, this`excludeDatanodes
      ensures r.Err? ==> Raises(a, r.error)
      ensures r.Ok? ==> r.value.url.params == url.params
      ensures a.hop.Redirect? && a.fetch.Some? ==>
                r == Err(a.fetch.value) &&
                excludeDatanodes == RecordFailure(HostPort(a.hop.datanode), old(excludeDatanodes))
      ensures !(a.hop.Redirect? && a.fetch.Some?) ==> excludeDatanodes == old(excludeDatanodes)
      ensures a.hop.HopFailed? ==> r == Err(a.hop.error)
      ensures a.hop.Direct? ==> r == Ok(Connection(url))
      ensures a.hop.Redirect? && a.fetch.None? ==> r == Ok(Connection(url.(authority := a.hop.datanode)))
    {
      redirectHost := None;
      match a.hop {
        case HopFailed(e) =>
          return Err(e);
        case Direct =>
          return Ok(Connection(url));
        case Redirect(datanode) =>
          var target := url.(authority := datanode);
          redirectHost := Some(HostPort(datanode));
          if a.fetch.Some? {
            excludeDatanodes := RecordFailure(redirectHost.value, excludeDatanodes);
            return Err(a.fetch.value);
          }
          return Ok(Connection(target));
      }
    }

    /** The read runner's connect: reuse the cached connection, else connect and disconnect on failure. */
    method Connect(url: Url, a: Attempt) returns (r: Result<Connection, IoError>)
      requires Valid()
      requires cachedConnection.None? ==> OffsetOf(url.params) == pos
      modifies this
      ensures Valid()
      ensures pos == old(pos) && resolvedUrl == old(resolvedUrl) && fileLength == old(fileLength)
      ensures bytesReadStat == old(bytesReadStat) && parameters == old(parameters) && originalUrl == old(originalUrl)
      ensures old(cachedConnection).Some? ==> r == Ok(old(cachedConnection).value) && unchanged(this)
      ensures r.Ok? ==> cachedConnection.None? ==> OffsetOf(r.value.url.params) == pos
      ensures r.Ok? ==> cachedConnection.Some? ==> r.value == cachedConnection.value
      ensures r.Ok? ==> runnerState == old(runnerState) && input == old(input) && cachedConnection == old(cachedConnection)
      ensures r.Err? ==> Raises(a, r.error) && runnerState == DISCONNECTED && cachedConnection.None? && input.None?
      ensures old(cachedConnection).None? && a.hop.HopFailed? ==> r == Err(a.hop.error)
      ensures old(cachedConnection).None? && a.hop.Redirect? && a.fetch.Some? ==>
                r == Err(a.fetch.value) &&
                excludeDatanodes == RecordFailure(HostPort(a.hop.datanode), old(excludeDatanodes))
      ensures !(old(cachedConnection).None? && a.hop.Redirect? && a.fetch.Some?) ==>
                excludeDatanodes == old(excludeDatanodes)
      ensures old(cachedConnection).None? && (a.hop.Direct? || (a.hop.Redirect? && a.fetch.None?)) ==> r.Ok?
      ensures old(cachedConnection).None? && r.Ok? ==> r.value.url.authority == ConnectedTo(a, None, url.authority)
      ensures Extends(old(excludeDatanodes), excludeDatanodes)
    {
      if cachedConnection.Some? {
        return Ok(cachedConnection.value);
      }
      ExtendsReflexive(excludeDatanodes);
      r := BaseConnect(url, a);
      if r.Err? {
        CloseInputStream(DISCONNECTED);
      }
    }

    /**
     * initializeInputStream: remember the connection's URL without its offset, compute
     * the file length from Content-Length (-1 without it), bound the stream by it and
     * move to OPEN.
     */
    method InitializeInputStream(conn: Connection, a: Attempt) returns (r: Result<InStream, IoError>)
      modifies this`resolvedUrl, this`fileLength, this`runnerState
      ensures resolvedUrl == Some(StripOffset(conn.url))
      ensures a.openError.Some? ==>
                r == Err(a.openError.value) && fileLength == old(fileLength) && runnerState == old(runnerState)
      ensures a.openError.None? ==> r.Ok? && runnerState == OPEN
      ensures a.openError.None? && a.contentLength.Some? ==>
                fileLength == pos + a.contentLength.value &&
                r.value == InStream(OffsetOf(conn.url.params),
                                    if a.contentLength.value >= 0 then Some(a.contentLength.value as nat) else None)
      ensures a.openError.None? && a.contentLength.None? ==>
                fileLength == -1 && r.value == InStream(OffsetOf(conn.url.params), None)
    {
      resolvedUrl := Some(StripOffset(conn.url));
      if a.openError.Some? {
        return Err(a.openError.value);
      }
      var bound: Option<nat> := None;
      if a.contentLength.Some? {
        var streamLength := a.contentLength.value;
        fileLength := pos + streamLength;
        if streamLength >= 0 {
          bound := Some(streamLength as nat);
        }
      } else {
        fileLength := -1;
      }
      runnerState := OPEN;
      r := Ok(InStream(OffsetOf(conn.url.params), bound));
    }

    /**
     * getResponse: open the stream once per connection and read from it into
     * b[off..off + len]. On failure the datanode of resolvedUrl is put in front of the
     * exclusion list and the runner disconnects.
     */
    method GetResponse(conn: Connection, b: array<bv8>, off: nat, len: nat, a: Attempt) returns (r: Result<int, IoError>)
      requires Valid()
      requires 0 < len && off + len <= b.Length
      requires cachedConnection.Some? ==> conn == cachedConnection.value
      requires cachedConnection.None? ==> OffsetOf(conn.url.params) == pos
      modifies this, b
      ensures Ahead(if r.Ok? && r.value > 0 then r.value else 0)
      ensures pos == old(pos) && bytesReadStat == old(bytesReadStat)
      ensures parameters == old(parameters) && originalUrl == old(originalUrl)
      ensures r.Ok? ==> runnerState == OPEN && cachedConnection == Some(conn)
      ensures r.Ok? ==> Delivered(file, old(b[..]), b[..], off, len, pos, r.value) && r.value != 0
      ensures r.Ok? && r.value == -1 ==> Available(file, input.value) == 0
      ensures r.Err? ==> Raises(a, r.error) && runnerState == DISCONNECTED && cachedConnection.None? && input.None?
      ensures r.Err? ==> resolvedUrl.Some? &&
                         excludeDatanodes == RecordFailure(AuthorityText(resolvedUrl.value.authority), old(excludeDatanodes))
      ensures r.Err? ==> b[..] == old(b[..])
      ensures r.Ok? ==> excludeDatanodes == old(excludeDatanodes)
      ensures old(input).None? && a.openError.Some? ==> r == Err(a.openError.value)
      ensures (old(input).Some? || a.openError.None?) && a.readError.Some? ==> r == Err(a.readError.value)
      ensures r.Err? ==> (old(input).None? && a.openError.Some?) || a.readError.Some?
      ensures old(input).None? ==> resolvedUrl == Some(StripOffset(conn.url))
      ensures old(input).Some? ==> resolvedUrl == old(resolvedUrl)
      ensures resolvedUrl.Some? && resolvedUrl.value.authority == conn.url.authority
      ensures fileLength == LengthAfter(a, true, old(input).Some?, old(fileLength), pos)
    {
      cachedConnection := Some(conn);
      if input.None? {
        var s := InitializeInputStream(conn, a);
        if s.Err? {
          excludeDatanodes := RecordFailure(AuthorityText(resolvedUrl.value.authority), excludeDatanodes);
          CloseInputStream(DISCONNECTED);
          return Err(s.error);
        }
        input := Some(s.value);
      }
      if a.readError.Some? {
        excludeDatanodes := RecordFailure(AuthorityText(resolvedUrl.value.authority), excludeDatanodes);
        CloseInputStream(DISCONNECTED);
        return Err(a.readError.value);
      }
      var s := input.value;
      var n := ReadCount(len, Available(file, s), a.chunk);
      if n == -1 {
        assert Delivered(file, old(b[..]), b[..], off, len, pos, n);
      } else {
        ghost var before := b[..];
        assert before == old(b[..]) && s.at == pos && n <= len;
        CopyFromFile(file, s.at, b, off, n);
        assert Delivered(file, before, b[..], off, len, s.at, n);
        input := Some(InStream(s.at + n, if s.left.Some? then Some(s.left.value - n) else None));
      }
      r := Ok(n);
    }

    /**
     * One iteration of runWithRetry: getUrl, connect, getResponse. failed names the
     * datanode the attempt put in front of the exclusion list, if it put one there.
     */
    method Attempt(b: array<bv8>, off: nat, len: nat, a: Attempt) returns (r: Result<int, IoError>, ghost failed: Option<string>)
      requires Valid()
      requires 0 < len && off + len <= b.Length
      modifies this, b
      ensures Ahead(if r.Ok? && r.value > 0 then r.value else 0)
      ensures pos == old(pos) && bytesReadStat == old(bytesReadStat)
      ensures r.Ok? ==> runnerState == OPEN
      ensures r.Ok? ==> Delivered(file, old(b[..]), b[..], off, len, pos, r.value) && r.value != 0
      ensures r.Ok? && r.value == -1 ==> Available(file, input.value) == 0
      ensures r.Err? ==> Raises(a, r.error) && runnerState == DISCONNECTED && cachedConnection.None? && input.None?
      ensures r.Err? ==> b[..] == old(b[..])
      ensures failed.None? ==> excludeDatanodes == old(excludeDatanodes)
      ensures failed.Some? ==> r.Err? && excludeDatanodes == RecordFailure(failed.value, old(excludeDatanodes))
      ensures old(cachedConnection).None? && a.hop.HopFailed? ==> r == Err(a.hop.error) && failed.None?
      ensures old(cachedConnection).None? && a.hop.Redirect? && a.fetch.Some? ==>
                r == Err(a.fetch.value) && failed == Some(HostPort(a.hop.datanode))
      ensures NamesFailure(r, failed, a, old(cachedConnection), nameNode, resolvedUrl)
      ensures failed == FailedNode(a, old(cachedConnection), old(input).Some?, nameNode)
      ensures !Connects(a, old(cachedConnection).Some?) ==> resolvedUrl == old(resolvedUrl)
      ensures fileLength == LengthAfter(a, old(cachedConnection).Some?, old(input).Some?, old(fileLength), pos)
      ensures var e := FirstError(a, old(cachedConnection).Some?, old(input).Some?);
              (r.Err? <==> e.Some?) && (r.Err? ==> r.error == e.value)
      ensures Extends(old(excludeDatanodes), excludeDatanodes)
    {
      var url := GetUrl();
      var c := Connect(url, a);
      if c.Err? {
        if a.hop.Redirect? && a.fetch.Some? {
          failed := Some(HostPort(a.hop.datanode));
        } else {
          failed := None;
        }
        r := Err(c.error);
        return;
      }
      assert c.value.url.authority == ConnectedTo(a, old(cachedConnection), nameNode);
      r, failed := Respond(c.value, b, off, len, a, old(cachedConnection));
    }

    /**
     * The getResponse half of an attempt that connected to conn, starting from the
     * connection start: a failure names the node conn leads to.
     */
    method Respond(conn: Connection, b: array<bv8>, off: nat, len: nat, a: Attempt, ghost start: Option<Connection>)
      returns (r: Result<int, IoError>, ghost failed: Option<string>)
      requires Valid()
      requires 0 < len && off + len <= b.Length
      requires cachedConnection.Some? ==> conn == cachedConnection.value
      requires cachedConnection.None? ==> OffsetOf(conn.url.params) == pos
      requires start == cachedConnection && Connects(a, start.Some?)
      requires conn.url.authority == ConnectedTo(a, start, nameNode)
      modifies this, b
      ensures Ahead(if r.Ok? && r.value > 0 then r.value else 0)
      ensures pos == old(pos) && bytesReadStat == old(bytesReadStat)
      ensures r.Ok? ==> runnerState == OPEN
      ensures r.Ok? ==> Delivered(file, old(b[..]), b[..], off, len, pos, r.value) && r.value != 0
      ensures r.Ok? && r.value == -1 ==> Available(file, input.value) == 0
      ensures r.Err? ==> Raises(a, r.error) && runnerState == DISCONNECTED && cachedConnection.None? && input.None?
      ensures r.Err? ==> b[..] == old(b[..])
      ensures failed.None? ==> excludeDatanodes == old(excludeDatanodes)
      ensures failed.Some? ==> r.Err? && excludeDatanodes == RecordFailure(failed.value, old(excludeDatanodes))
      ensures NamesFailure(r, failed, a, start, nameNode, resolvedUrl)
      ensures failed == FailedNode(a, start, old(input).Some?, nameNode)
      ensures fileLength == LengthAfter(a, start.Some?, old(input).Some?, old(fileLength), pos)
      ensures var e := FirstError(a, start.Some?, old(input).Some?);
              (r.Err? <==> e.Some?) && (r.Err? ==> r.error == e.value)
      ensures Extends(old(excludeDatanodes), excludeDatanodes)
    {
      ExtendsReflexive(excludeDatanodes);
      r := GetResponse(conn, b, off, len, a);
      failed := if r.Err? then Some(AuthorityText(conn.url.authority)) else None;
    }

    /**
     * One turn of runWithRetry's loop: attempt i of a run that began from the connection
     * start0, with or without a stream (stream0), and with file length length0; it puts
     * the attempt's node fs[i], if any, in front of the exclusion list, and stop says the
     * attempt's outcome ends the loop rather than being retried.
     */
    method RetryTurn(b: array<bv8>, off: nat, len: nat, attempts: seq<Attempt>, i: nat,
                     ghost start0: Option<Connection>, ghost stream0: bool, ghost length0: int,
                     ghost ts: seq<Try>, ghost fs: seq<Option<string>>)
      returns (r: Result<int, IoError>, stop: bool, ghost failed: Option<string>)
      requires Valid()
      requires 0 < len && off + len <= b.Length && i < |attempts|
      requires i == 0 ==> cachedConnection == start0 && input.Some? == stream0
      requires i > 0 ==> cachedConnection.None? && input.None?
      requires ts == Tries(attempts, start0.Some?, stream0) && fs == Failures(attempts, start0, stream0, nameNode)
      requires AllRetried(ts, i)
      requires fileLength == LengthAfterRun(attempts, i, start0.Some?, stream0, length0, pos)
      modifies this, b
      ensures Ahead(if r.Ok? && r.value > 0 then r.value else 0)
      ensures pos == old(pos) && bytesReadStat == old(bytesReadStat)
      ensures r.Ok? ==> runnerState == OPEN
      ensures r.Ok? ==> Delivered(file, old(b[..]), b[..], off, len, pos, r.value) && r.value != 0
      ensures r.Ok? && r.value == -1 ==> Available(file, input.value) == 0
      ensures r.Err? ==> runnerState == DISCONNECTED && cachedConnection.None? && input.None?
      ensures r.Err? ==> b[..] == old(b[..])
      ensures stop ==> EndedBy(r, i, attempts, start0.Some?, stream0)
      ensures !stop ==> r.Err? && AllRetried(ts, i + 1) && !Ends(attempts[i])
      ensures failed.None? ==> excludeDatanodes == old(excludeDatanodes)
      ensures failed.Some? ==> r.Err? && excludeDatanodes == RecordFailure(failed.value, old(excludeDatanodes))
      ensures NamesFailure(r, failed, attempts[i], if i == 0 then start0 else None, nameNode, resolvedUrl)
      ensures fileLength == LengthAfterRun(attempts, i + 1, start0.Some?, stream0, length0, pos)
      ensures excludeDatanodes == Recorded(fs[i], old(excludeDatanodes))
    {
      r, failed := Attempt(b, off, len, attempts[i]);
      stop := r.Ok? || Classify(r.error, OPEN_REQUIRES_AUTH, attempts[i].tokenReplaced) == Propagate;
      if stop {
        RunEndedBy(r, i, attempts, start0.Some?, stream0);
      }
    }

    /**
     * runWithRetry: attempts follow each other while they fail with an invalid token that
     * could be replaced; the first success or other failure ends the loop. The loop has no
     * ceiling, so it ends only because some attempt ends it; k is the attempt that did.
     */
    method RunWithRetry(b: array<bv8>, off: nat, len: nat, attempts: seq<Attempt>)
      returns (r: Result<int, IoError>, ghost k: nat, ghost failed: Option<string>, ghost earlier: Option<string>,
               ghost hist: seq<Option<string>>)
      requires Valid()
      requires 0 < len && off + len <= b.Length
      requires exists i :: 0 <= i < |attempts| && Ends(attempts[i])
      modifies this, b
      ensures Ahead(if r.Ok? && r.value > 0 then r.value else 0)
      ensures pos == old(pos) && bytesReadStat == old(bytesReadStat)
      ensures r.Ok? ==> runnerState == OPEN
      ensures r.Ok? ==> Delivered(file, old(b[..]), b[..], off, len, pos, r.value) && r.value != 0
      ensures r.Ok? && r.value == -1 ==> Available(file, input.value) == 0
      ensures EndedBy(r, k, attempts, old(cachedConnection).Some?, old(input).Some?)
      ensures r.Err? ==> runnerState == DISCONNECTED && cachedConnection.None? && input.None?
      ensures r.Err? ==> b[..] == old(b[..])
      ensures failed.None? ==> excludeDatanodes == earlier
      ensures failed.Some? ==> r.Err? && excludeDatanodes == RecordFailure(failed.value, earlier)
      ensures k < |attempts| &&
              NamesFailure(r, failed, attempts[k], if k == 0 then old(cachedConnection) else None, nameNode, resolvedUrl)
      ensures k < |attempts| &&
              fileLength == LengthAfterRun(attempts, k + 1, old(cachedConnection).Some?, old(input).Some?, old(fileLength), pos)
      ensures Chain(Failures(attempts, old(cachedConnection), old(input).Some?, nameNode), hist, k + 1)
      ensures hist[0] == old(excludeDatanodes) && hist[k] == earlier && hist[k + 1] == excludeDatanodes
    {
      ghost var bound :| 0 <= bound < |attempts| && Ends(attempts[bound]);
      ghost var start0, cached0, stream0, length0, excl0 :=
        cachedConnection, cachedConnection.Some?, input.Some?, fileLength, excludeDatanodes;
      ghost var ts := Tries(attempts, cachedConnection.Some?, input.Some?);
      ghost var fs := Failures(attempts, cachedConnection, input.Some?, nameNode);
      hist := [excludeDatanodes];
      var i := 0;
      while true
        invariant 0 <= i <= bound
        invariant Valid() && pos == old(pos) && bytesReadStat == old(bytesReadStat)
        invariant b[..] == old(b[..])
        invariant i == 0 ==> cachedConnection == start0 && input == old(input)
        invariant i > 0 ==> cachedConnection.None? && input.None?
        invariant AllRetried(ts, i)
        invariant fileLength == LengthAfterRun(attempts, i, cached0, stream0, length0, pos)
        invariant |hist| == i + 1 && hist[0] == excl0 && hist[i] == excludeDatanodes
        invariant Chain(fs, hist, i)
        decreases bound - i
      {
        earlier := excludeDatanodes;
        var stop;
        r, stop, failed := RetryTurn(b, off, len, attempts, i, start0, stream0, length0, ts, fs);
        hist := hist + [excludeDatanodes];
        k := i;
        if stop {
          return;
        }
        i := i + 1;
      }
    }

    /**
     * Whether read's SEEK branch leaves a connection for the read: after a seek, exactly
     * when the nested runner reconnected at the cursor; otherwise when one is cached.
     */
    ghost predicate Reconnected(reconnect: seq<Try>)
      requires exists i :: 0 <= i < |reconnect| && EndsRetry(reconnect[i], OPEN_REQUIRES_AUTH)
      reads this
    {
      if runnerState == SEEK then resolvedUrl.Some? && RetryOutcome(reconnect, OPEN_REQUIRES_AUTH).Ok?
      else cachedConnection.Some?
    }

    /** The connection read's attempts start from: the reconnect after a seek, or the cached one. */
    ghost function StartConnection(reconnect: seq<Try>): Option<Connection>
      requires exists i :: 0 <= i < |reconnect| && EndsRetry(reconnect[i], OPEN_REQUIRES_AUTH)
      reads this
    {
      if runnerState != SEEK then cachedConnection
      else if Reconnected(reconnect) then Some(Connection(RangedUrl(resolvedUrl.value, pos)))
      else None
    }

    /**
     * The SEEK branch of read: a nested runner opens resolvedUrl at the cursor and the
     * connection is cached; a failure, or a missing resolvedUrl, is swallowed and the
     * runner disconnects.
     */
    method Reconnect(reconnect: seq<Try>)
      requires Valid() && runnerState == SEEK
      requires exists i :: 0 <= i < |reconnect| && EndsRetry(reconnect[i], OPEN_REQUIRES_AUTH)
      modifies this`cachedConnection, this`input, this`runnerState
      ensures Valid() && input.None?
      ensures cachedConnection.Some? == old(Reconnected(reconnect))
      ensures cachedConnection == old(StartConnection(reconnect))
      ensures cachedConnection.Some? ==>
                runnerState == SEEK && cachedConnection.value == Connection(RangedUrl(resolvedUrl.value, pos))
      ensures cachedConnection.None? ==> runnerState == DISCONNECTED
    {
      var outcome := RetryOutcome(reconnect, OPEN_REQUIRES_AUTH);
      if resolvedUrl.None? || outcome.Err? {
        CloseInputStream(DISCONNECTED);
      } else {
        OffsetOfAppend(resolvedUrl.value.params, pos);
        cachedConnection := Some(Connection(RangedUrl(resolvedUrl.value, pos)));
      }
    }

    /**
     * read(b, off, len): refuse a closed stream, return 0 for an empty request, reconnect
     * at the cursor after a seek, then read through runWithRetry and move the cursor on by
     * what was read. A failure that puts a datanode in front of the exclusion list names it
     * in failed; earlier is the list before that last failure.
     */
    method Read(b: array<bv8>, off: nat, len: nat, env: ReadEnv)
      returns (r: Result<int, IoError>, ghost k: nat, ghost failed: Option<string>, ghost earlier: Option<string>)
      requires Valid()
      requires 0 < len ==> off + len <= b.Length
      requires exists i :: 0 <= i < |env.reconnect| && EndsRetry(env.reconnect[i], OPEN_REQUIRES_AUTH)
      requires exists i :: 0 <= i < |env.attempts| && Ends(env.attempts[i])
      modifies this, b
      ensures Valid()
      ensures old(runnerState) == CLOSED ==> r == Err(StreamClosed) && unchanged(this) && unchanged(b)
      ensures old(runnerState) != CLOSED && len == 0 ==> r == Ok(0) && unchanged(this) && unchanged(b)
      ensures r.Ok? ==> r.value >= -1 && (len > 0 ==> r.value != 0)
      ensures r.Ok? && r.value >= 0 ==>
                pos == old(pos) + r.value && bytesReadStat == old(bytesReadStat) + r.value
      ensures r.Ok? && len > 0 ==> Delivered(file, old(b[..]), b[..], off, len, old(pos), r.value)
      ensures r.Ok? && r.value == -1 ==> pos == old(pos) && input.Some? && Available(file, input.value) == 0
      ensures r.Err? ==> pos == old(pos) && b[..] == old(b[..])
      ensures r.Err? && old(runnerState) != CLOSED ==>
                runnerState == DISCONNECTED && cachedConnection.None? && input.None?
      ensures Extends(old(excludeDatanodes), earlier)
      ensures failed.None? ==> excludeDatanodes == earlier
      ensures failed.Some? ==> r.Err? && excludeDatanodes == RecordFailure(failed.value, earlier)
      ensures failed.Some? && failed.value != "" ==>
                excludeDatanodes.Some? && failed.value <= excludeDatanodes.value
      ensures old(runnerState) != CLOSED && len > 0 ==>
                && EndedBy(r, k, env.attempts, old(Reconnected(env.reconnect)), old(input).Some?)
                && NamesFailure(r, failed, env.attempts[k], if k == 0 then old(StartConnection(env.reconnect)) else None,
                                nameNode, resolvedUrl)
                && fileLength == LengthAfterRun(env.attempts, k + 1, old(Reconnected(env.reconnect)), old(input).Some?,
                                                old(fileLength), old(pos))
      ensures old(runnerState) != CLOSED && len > 0 ==>
                && k < |env.attempts|
                && var fs := Failures(env.attempts, old(StartConnection(env.reconnect)), old(input).Some?, nameNode);
                   && earlier == RecordFailures(Named(fs, k), old(excludeDatanodes))
                   && excludeDatanodes == RecordFailures(Named(fs, k + 1), old(excludeDatanodes))
      ensures Extends(old(excludeDatanodes), excludeDatanodes)
    {
      ExtendsReflexive(excludeDatanodes);
      k, failed, earlier := 0, None, excludeDatanodes;
      if runnerState == CLOSED {
        r := Err(StreamClosed);
        return;
      }
      if len == 0 {
        r := Ok(0);
        return;
      }
      ghost var hist;
      r, k, failed, earlier, hist := ReadAtCursor(b, off, len, env);
      ghost var fs := Failures(env.attempts, old(StartConnection(env.reconnect)), old(input).Some?, nameNode);
      HistoryRecords(fs, hist, k);
      HistoryRecords(fs, hist, k + 1);
    }

    /**
     * The body of read on an open request for len > 0 bytes: reconnect at the cursor after
     * a seek, read through runWithRetry, and move the cursor on by what was read.
     */
    method ReadAtCursor(b: array<bv8>, off: nat, len: nat, env: ReadEnv)
      returns (r: Result<int, IoError>, ghost k: nat, ghost failed: Option<string>, ghost earlier: Option<string>,
               ghost hist: seq<Option<string>>)
      requires Valid() && runnerState != CLOSED
      requires 0 < len && off + len <= b.Length
      requires exists i :: 0 <= i < |env.reconnect| && EndsRetry(env.reconnect[i], OPEN_REQUIRES_AUTH)
      requires exists i :: 0 <= i < |env.attempts| && Ends(env.attempts[i])
      modifies this, b
      ensures Valid()
      ensures r.Ok? ==> r.value >= -1 && r.value != 0
      ensures r.Ok? && r.value >= 0 ==>
                pos == old(pos) + r.value && bytesReadStat == old(bytesReadStat) + r.value
      ensures r.Ok? ==> Delivered(file, old(b[..]), b[..], off, len, old(pos), r.value)
      ensures r.Ok? && r.value == -1 ==> pos == old(pos) && input.Some? && Available(file, input.value) == 0
      ensures r.Err? ==> pos == old(pos) && b[..] == old(b[..])
      ensures r.Err? ==> runnerState == DISCONNECTED && cachedConnection.None? && input.None?
      ensures failed.None? ==> excludeDatanodes == earlier
      ensures failed.Some? ==> r.Err? && excludeDatanodes == RecordFailure(failed.value, earlier)
      ensures EndedBy(r, k, env.attempts, old(Reconnected(env.reconnect)), old(input).Some?)
      ensures NamesFailure(r, failed, env.attempts[k], if k == 0 then old(StartConnection(env.reconnect)) else None,
                           nameNode, resolvedUrl)
      ensures fileLength == LengthAfterRun(env.attempts, k + 1, old(Reconnected(env.reconnect)), old(input).Some?,
                                           old(fileLength), old(pos))
      ensures Chain(Failures(env.attempts, old(StartConnection(env.reconnect)), old(input).Some?, nameNode), hist, k + 1)
      ensures hist[0] == old(excludeDatanodes) && hist[k] == earlier && hist[k + 1] == excludeDatanodes
    {
      if runnerState == SEEK {
        Reconnect(env.reconnect);
      }
      assert cachedConnection == old(StartConnection(env.reconnect)) && input == old(input);
      assert cachedConnection.Some? == old(Reconnected(env.reconnect)) && fileLength == old(fileLength);
      r, k, failed, earlier, hist := RunWithRetry(b, off, len, env.attempts);
      if r.Ok? && r.value >= 0 {
        bytesReadStat := bytesReadStat + r.value;
        pos := pos + r.value;
      }
    }

    /**
     * getPos(): the cursor, which is where the open stream stands, or the offset the cached
     * connection will ask for once the stream is closed.
     */
    function GetPos(): (p: nat)
      reads this
      ensures Valid() && input.Some? ==> p == input.value.at
      ensures Valid() && input.None? && cachedConnection.Some? ==> p == OffsetOf(cachedConnection.value.url.params)
    {
      pos
    }
  }

  /** DikeHdfsInputStream: the FSInputStream that hands every call to its read runner. */
  class DikeHdfsInputStream {
    const runner: DikeReadRunner

    constructor (file: seq<bv8>, nameNode: Authority, path: string, bufferSize: int, probe: Probe)
      ensures fresh(runner) && runner.Valid() && runner.file == file
      ensures runner.runnerState == SEEK && runner.pos == 0
    {
      runner := new DikeReadRunner(file, nameNode, path, bufferSize, probe);
    }

    /**
     * read(): one byte as 0..255, or -1 at the end of the stream. k is the attempt that
     * ended the read, and failed the datanode the read put in front of the exclusion list.
     */
    method ReadByte(env: ReadEnv) returns (r: Result<int, IoError>, ghost k: nat, ghost failed: Option<string>)
      requires runner.Valid()
      requires exists i :: 0 <= i < |env.reconnect| && EndsRetry(env.reconnect[i], OPEN_REQUIRES_AUTH)
      requires exists i :: 0 <= i < |env.attempts| && Ends(env.attempts[i])
      modifies runner
      ensures runner.Valid()
      ensures r.Ok? ==> -1 <= r.value < 256
      ensures r.Ok? && r.value == -1 ==> runner.pos == old(runner.pos)
      ensures r.Ok? && r.value >= 0 ==>
                runner.pos == old(runner.pos) + 1 && old(runner.pos) < |runner.file| &&
                r.value == runner.file[old(runner.pos)] as int
      ensures r.Err? ==> runner.pos == old(runner.pos)
      ensures old(runner.runnerState) == CLOSED ==> r == Err(StreamClosed) && unchanged(runner)
      ensures old(runner.runnerState) != CLOSED ==>
                && EndedBy(r, k, env.attempts, old(runner.Reconnected(env.reconnect)), old(runner.input).Some?)
                && NamesFailure(r, failed, env.attempts[k],
                                if k == 0 then old(runner.StartConnection(env.reconnect)) else None,
                                runner.nameNode, runner.resolvedUrl)
                && runner.fileLength == LengthAfterRun(env.attempts, k + 1, old(runner.Reconnected(env.reconnect)),
                                                       old(runner.input).Some?, old(runner.fileLength), old(runner.pos))
      ensures old(runner.runnerState) != CLOSED ==>
                && k < |env.attempts|
                && runner.excludeDatanodes ==
                   RecordFailures(Named(Failures(env.attempts, old(runner.StartConnection(env.reconnect)),
                                                 old(runner.input).Some?, runner.nameNode), k + 1),
                                  old(runner.excludeDatanodes))
      ensures Extends(old(runner.excludeDatanodes), runner.excludeDatanodes)
      ensures failed.Some? && failed.value != "" ==>
                runner.excludeDatanodes.Some? && failed.value <= runner.excludeDatanodes.value
    {
      var b := new bv8[1];
      var n;
      ghost var earlier;
      n, k, failed, earlier := runner.Read(b, 0, 1, env);
      if n.Ok? && n.value != -1 {
        assert b[..][0..1] == runner.file[old(runner.pos)..old(runner.pos) + 1];
        r := Ok(b[0] as int);
      } else {
        r := n;
      }
    }
  }
}
