/**
 * The value-level part of the WebHDFS request runners in DikeHdfsFileSystem.java:
 * URLs and their query parameters, the comma-joined list of excluded datanodes,
 * and the way runWithRetry classifies a failed attempt.
 */
module WebHdfs {
  import opened Wrappers

  /** Host and optional explicit port of a URL. */
  datatype Authority = Authority(host: string, port: Option<nat>)

  /** The query parameters the runners put on a request. */
  datatype Param =
    | BufferSize(size: int)
    | Offset(offset: nat)
    | ExcludeDatanodes(value: string)

  /** A request URL: the node it goes to, the file path and the query parameters, in order. */
  datatype Url = Url(authority: Authority, path: string, params: seq<Param>)

  /** The IOException kinds the runners tell apart. */
  datatype IoError =
    | AccessDenied   // AccessControlException
    | InvalidToken   // SecretManager.InvalidToken
    | Transport      // any other IOException from a connection or a stream
    | StreamClosed   // IOException("Stream closed")

  // ---------------------------------------------------------------------------
  // Text of an authority

  function DigitChar(d: nat): char
    requires d < 10
  {
    "0123456789"[d]
  }

  /** Decimal text of a natural number. */
  function NatText(n: nat): (s: string)
    ensures 1 <= |s|
    ensures forall c :: c in s ==> '0' <= c <= '9'
    decreases n
  {
    if n < 10 then [DigitChar(n)] else NatText(n / 10) + [DigitChar(n % 10)]
  }

  /** URL.getPort() as text: -1 when the URL names no port. */
  function PortText(port: Option<nat>): string
  {
    if port.Some? then NatText(port.value) else "-1"
  }

  /** The redirect host the base connect records: getHost() + ":" + getPort(). */
  function HostPort(a: Authority): string
  {
    a.host + ":" + PortText(a.port)
  }

  /** URL.getAuthority(), the entry the read runner records for a failed read. */
  function AuthorityText(a: Authority): string
  {
    if a.port.Some? then a.host + ":" + NatText(a.port.value) else a.host
  }

  /**
   * The two ways of naming a failed datanode agree exactly when its URL carries
   * an explicit port; without one, a failed connect records "host:-1" where a
   * failed read records "host".
   */
  lemma HostPortMatchesAuthority(a: Authority)
    ensures HostPort(a) == AuthorityText(a) <==> a.port.Some?
  {
    if a.port.None? {
      assert |HostPort(a)| == |a.host| + 3;
    }
  }

  // ---------------------------------------------------------------------------
  // The excluded-datanodes parameter

  /** The value carried by an ExcludeDatanodesParam built from s: the empty string stands for no value. */
  function ExcludeValue(s: string): (r: Option<string>)
    ensures r.Some? <==> s != ""
    ensures r.Some? ==> r.value == s
  {
    if s == "" then None else Some(s)
  }

  /** The old list survives, unchanged, as the tail of the new one. */
  predicate Extends(before: Option<string>, after: Option<string>)
  {
    before.None? ||
    (after.Some? && |before.value| <= |after.value| &&
     after.value[|after.value| - |before.value|..] == before.value)
  }

  /**
   * excludeDatanodes after a failure of the datanode named host: the host is put in
   * front of the old list with a comma, or becomes the whole list when there was none.
   */
  function RecordFailure(host: string, excl: Option<string>): (r: Option<string>)
    ensures Extends(excl, r)
    ensures host != "" ==> r.Some? && |host| <= |r.value| && r.value[..|host|] == host
    ensures excl.Some? ==> r.Some? && |r.value| == |host| + 1 + |excl.value| && r.value[|host|] == ','
    ensures excl.None? ==> r == ExcludeValue(host)
  {
    if excl.Some? then ExcludeValue(host + "," + excl.value) else ExcludeValue(host)
  }

  lemma ExtendsReflexive(a: Option<string>)
    ensures Extends(a, a)
  {
    if a.Some? { assert a.value[|a.value| - |a.value|..] == a.value; }
  }

  lemma {:induction false} ExtendsTransitive(a: Option<string>, b: Option<string>, c: Option<string>)
    requires Extends(a, b) && Extends(b, c)
    ensures Extends(a, c)
  {
    if a.Some? {
      var x, y, z := a.value, b.value, c.value;
      assert z[|z| - |x|..] == z[|z| - |y|..][|y| - |x|..];
    }
  }

  /** excludeDatanodes after the hosts in failed have failed, oldest first. */
  function RecordFailures(failed: seq<string>, excl: Option<string>): Option<string>
    decreases |failed|
  {
    if failed == [] then excl else RecordFailures(failed[1..], RecordFailure(failed[0], excl))
  }

  /** Recording one more failure after a run of them is recording the longer run. */
  lemma {:induction false} RecordFailuresSnoc(failed: seq<string>, host: string, excl: Option<string>)
    ensures RecordFailures(failed + [host], excl) == RecordFailure(host, RecordFailures(failed, excl))
    decreases |failed|
  {
    if failed != [] {
      assert (failed + [host])[1..] == failed[1..] + [host];
      RecordFailuresSnoc(failed[1..], host, RecordFailure(failed[0], excl));
    }
  }

  /** However many datanodes fail, no earlier entry is ever dropped from the list. */
  lemma {:induction false} FailuresOnlyGrow(failed: seq<string>, excl: Option<string>)
    ensures Extends(excl, RecordFailures(failed, excl))
    decreases |failed|
  {
    if failed == [] {
      ExtendsReflexive(excl);
    } else {
      var next := RecordFailure(failed[0], excl);
      FailuresOnlyGrow(failed[1..], next);
      ExtendsTransitive(excl, next, RecordFailures(failed[1..], next));
    }
  }

  /** The most recent failure is always at the head of the list. */
  lemma {:induction false} LatestFailureFirst(failed: seq<string>, excl: Option<string>)
    requires failed != [] && failed[|failed| - 1] != ""
    ensures var r := RecordFailures(failed, excl);
            r.Some? && |failed[|failed| - 1]| <= |r.value| &&
            r.value[..|failed[|failed| - 1]|] == failed[|failed| - 1]
    decreases |failed|
  {
    if |failed| > 1 {
      LatestFailureFirst(failed[1..], RecordFailure(failed[0], excl));
    }
  }

  // ---------------------------------------------------------------------------
  // URL parameters

  /**
   * The parameter list the base getUrl hands to toUrl: the runner's own parameters,
   * untouched, followed by exactly one excluded-datanodes parameter when a list exists.
   */
  function UrlParams(params: seq<Param>, excl: Option<string>): (r: seq<Param>)
    ensures |r| == |params| + (if excl.Some? then 1 else 0)
    ensures r[..|params|] == params
    ensures excl.Some? ==> r[|params|] == ExcludeDatanodes(excl.value)
    ensures excl.None? ==> r == params
  {
    if excl.Some? then params + [ExcludeDatanodes(excl.value)] else params
  }

  /** The excluded-datanodes value a request carries, if any. */
  function ExclusionOf(ps: seq<Param>): Option<string>
  {
    if ps == [] then None
    else if ps[0].ExcludeDatanodes? then Some(ps[0].value)
    else ExclusionOf(ps[1..])
  }

  /** The byte offset a datanode serves a request from: its offset parameter, 0 without one. */
  function OffsetOf(ps: seq<Param>): nat
  {
    if ps == [] then 0 else if ps[0].Offset? then ps[0].offset else OffsetOf(ps[1..])
  }

  /** removeOffsetParam on a parameter list: every offset parameter goes, the rest keep their order. */
  function StripOffsets(ps: seq<Param>): (r: seq<Param>)
    ensures forall p :: p in r <==> p in ps && !p.Offset?
    ensures |r| <= |ps|
  {
    if ps == [] then []
    else if ps[0].Offset? then StripOffsets(ps[1..])
    else [ps[0]] + StripOffsets(ps[1..])
  }

  /** Stripping works piecewise: the kept parameters of a + b are those of a, then those of b. */
  lemma {:induction false} StripOffsetsAppend(a: seq<Param>, b: seq<Param>)
    ensures StripOffsets(a + b) == StripOffsets(a) + StripOffsets(b)
    decreases |a|
  {
    if a != [] {
      assert (a + b)[0] == a[0] && (a + b)[1..] == a[1..] + b;
      StripOffsetsAppend(a[1..], b);
      var first := if a[0].Offset? then [] else [a[0]];
      assert StripOffsets(a + b) == first + StripOffsets(a[1..] + b);
      assert StripOffsets(a) == first + StripOffsets(a[1..]);
    } else {
      assert a + b == b;
    }
  }

  /** A list without offset parameters comes back unchanged, order and repeats included. */
  lemma {:induction false} StripOffsetsKeepsPlain(ps: seq<Param>)
    requires forall q :: q in ps ==> !q.Offset?
    ensures StripOffsets(ps) == ps
    decreases |ps|
  {
    if ps != [] {
      assert ps[0] in ps;
      StripOffsetsKeepsPlain(ps[1..]);
      assert ps == [ps[0]] + ps[1..];
    }
  }

  function StripOffset(u: Url): Url
  {
    u.(params := StripOffsets(u.params))
  }

  /** The URL of a ranged reconnect: resolvedUrl + "&" + new OffsetParam(pos). */
  function RangedUrl(resolved: Url, pos: nat): Url
  {
    resolved.(params := resolved.params + [Offset(pos)])
  }

  /** A ranged reconnect on an offset-free URL asks the datanode for exactly the appended offset. */
  lemma {:induction false} OffsetOfAppend(ps: seq<Param>, p: nat)
    requires forall q :: q in ps ==> !q.Offset?
    ensures OffsetOf(ps + [Offset(p)]) == p
    decreases |ps|
  {
    if ps != [] {
      assert (ps + [Offset(p)])[1..] == ps[1..] + [Offset(p)];
      OffsetOfAppend(ps[1..], p);
    }
  }

  /**
   * The URL the read runner rebuilds for a new connection asks for the cursor position
   * and carries the current exclusion list.
   */
  lemma RebuiltUrlParams(bufferSize: int, pos: nat, excl: Option<string>)
    ensures OffsetOf(UrlParams([BufferSize(bufferSize), Offset(pos)], excl)) == pos
    ensures ExclusionOf(UrlParams([BufferSize(bufferSize), Offset(pos)], excl)) == excl
  {
    var ps := UrlParams([BufferSize(bufferSize), Offset(pos)], excl);
    var rest := if excl.Some? then [ExcludeDatanodes(excl.value)] else [];
    assert ps == [BufferSize(bufferSize), Offset(pos)] + rest;
    assert ps[1..][1..] == rest;
    assert ExclusionOf(ps) == ExclusionOf(ps[1..]) == ExclusionOf(rest);
  }

  // ---------------------------------------------------------------------------
  // Retry classification (runWithRetry)

  datatype Verdict = RetryAttempt | Propagate

  /**
   * What runWithRetry does with a failed attempt: an access-control error and any
   * ordinary IOException propagate at once; an invalid token is retried only when the
   * operation does not require authentication and the delegation token was replaced.
   */
  function Classify(e: IoError, requireAuth: bool, tokenReplaced: bool): (v: Verdict)
    ensures v == RetryAttempt <==> e == InvalidToken && !requireAuth && tokenReplaced
    ensures e == AccessDenied ==> v == Propagate
  {
    match e
    case AccessDenied => Propagate
    case InvalidToken => if requireAuth || !tokenReplaced then Propagate else RetryAttempt
    case _ => Propagate
  }

  /** One attempt of a runner whose attempts change nothing it keeps: its failure, if any, and replaceExpiredDelegationToken's answer. */
  datatype Try = Try(error: Option<IoError>, tokenReplaced: bool)

  /** An attempt that leaves the retry loop: a success, or a failure that is not retried. */
  predicate EndsRetry(t: Try, requireAuth: bool)
  {
    t.error.None? || Classify(t.error.value, requireAuth, t.tokenReplaced) == Propagate
  }

  predicate Retried(t: Try, requireAuth: bool)
  {
    t.error == Some(InvalidToken) && !requireAuth && t.tokenReplaced
  }

  /**
   * The outcome of runWithRetry over the attempts the world offers, for a runner whose
   * attempts do not change its state: the index of the attempt that succeeded, or the
   * error that ended the loop. The loop has no attempt ceiling, so the outcome exists
   * only when some attempt ends it.
   */
  function RetryOutcome(tries: seq<Try>, requireAuth: bool): (r: Result<nat, IoError>)
    requires exists i :: 0 <= i < |tries| && EndsRetry(tries[i], requireAuth)
    ensures r.Ok? ==> r.value < |tries| && tries[r.value].error.None? &&
                      forall j :: 0 <= j < r.value ==> Retried(tries[j], requireAuth)
    ensures r.Err? ==> exists k :: 0 <= k < |tries| && tries[k].error == Some(r.error) &&
                        !Retried(tries[k], requireAuth) &&
                        forall j :: 0 <= j < k ==> Retried(tries[j], requireAuth)
    decreases |tries|
  {
    var t := tries[0];
    if t.error.None? then Ok(0)
    else if Classify(t.error.value, requireAuth, t.tokenReplaced) == Propagate then Err(t.error.value)
    else
      assert exists i :: 0 <= i < |tries[1..]| && EndsRetry(tries[1..][i], requireAuth) by {
        assert !EndsRetry(tries[0], requireAuth);
        var i :| 0 <= i < |tries| && EndsRetry(tries[i], requireAuth);
        assert i != 0;
        assert EndsRetry(tries[1..][i - 1], requireAuth);
      }
      match RetryOutcome(tries[1..], requireAuth)
      case Ok(i) => Ok(i + 1)
      case Err(e) =>
        assert exists k :: 0 <= k < |tries| && tries[k].error == Some(e) && !Retried(tries[k], requireAuth) &&
                           forall j :: 0 <= j < k ==> Retried(tries[j], requireAuth) by {
          var k :| 0 <= k < |tries[1..]| && tries[1..][k].error == Some(e) && !Retried(tries[1..][k], requireAuth) &&
                   forall j :: 0 <= j < k ==> Retried(tries[1..][j], requireAuth);
          assert forall j :: 0 <= j < k + 1 ==> Retried(tries[j], requireAuth) by {
            forall j | 0 <= j < k + 1 ensures Retried(tries[j], requireAuth) {
              if j > 0 { assert tries[j] == tries[1..][j - 1]; }
            }
          }
          assert tries[k + 1] == tries[1..][k];
        }
        Err(e)
  }

  /**
   * The loop's outcome is fixed by the first try that ends it: whatever follows a try that
   * succeeds or propagates is never run.
   */
  lemma {:induction false} RetryOutcomeAt(tries: seq<Try>, k: nat, requireAuth: bool)
    requires k < |tries| && EndsRetry(tries[k], requireAuth)
    requires forall j :: 0 <= j < k ==> Retried(tries[j], requireAuth)
    ensures RetryOutcome(tries, requireAuth) ==
            if tries[k].error.None? then Ok(k) else Err(tries[k].error.value)
    decreases k
  {
    if k > 0 {
      assert Retried(tries[0], requireAuth);
      assert tries[1..][k - 1] == tries[k];
      assert forall j :: 0 <= j < k - 1 ==> tries[1..][j] == tries[j + 1];
      RetryOutcomeAt(tries[1..], k - 1, requireAuth);
    }
  }
}
