/**
 * The quote-aware scan that DikeAsyncReader.hpp runs over its buffers, as functions on
 * byte sequences: a quote byte toggles the quote flag, and a delimiter counts only when
 * the flag is off after the byte is seen.
 */
module CsvScan {
  import opened Wrappers

  const FIELD_DELIM: bv8 := 0x2C   // ','
  const RECORD_DELIM: bv8 := 0x0A  // '\n'
  const QUOTE: bv8 := 0x22         // '"'

  /** The delimiters that end a field: readField stops at either. */
  const FIELD_END: set<bv8> := {FIELD_DELIM, RECORD_DELIM}
  const RECORD_END: set<bv8> := {RECORD_DELIM}
  const FIELD_ONLY: set<bv8> := {FIELD_DELIM}

  /** The quote flag after scanning s, starting from q. */
  function Quoted(q: bool, s: seq<bv8>): bool
    decreases |s|
  {
    if s == [] then q else Quoted(q, s[..|s| - 1]) != (s[|s| - 1] == QUOTE)
  }

  /** s[i] is one of delims and the quote flag is off once it has been seen. */
  predicate Boundary(q: bool, s: seq<bv8>, i: int, delims: set<bv8>)
  {
    0 <= i < |s| && s[i] in delims && !Quoted(q, s[..i + 1])
  }

  predicate IsFirstBoundary(q: bool, s: seq<bv8>, delims: set<bv8>, k: int)
  {
    Boundary(q, s, k, delims) && forall j :: 0 <= j < k ==> !Boundary(q, s, j, delims)
  }

  predicate NoBoundary(q: bool, s: seq<bv8>, delims: set<bv8>)
  {
    forall j :: 0 <= j < |s| ==> !Boundary(q, s, j, delims)
  }

  /** The first boundary at or after from, when none comes before from. */
  function FindFrom(q: bool, s: seq<bv8>, delims: set<bv8>, from: nat): (r: Option<nat>)
    requires from <= |s|
    requires forall j :: 0 <= j < from ==> !Boundary(q, s, j, delims)
    ensures r.Some? ==> IsFirstBoundary(q, s, delims, r.value)
    ensures r.None? ==> NoBoundary(q, s, delims)
    decreases |s| - from
  {
    if from == |s| then None
    else if Boundary(q, s, from, delims) then Some(from)
    else FindFrom(q, s, delims, from + 1)
  }

  /** The first boundary of s: the least index of an unquoted delimiter, or None. */
  function FindBoundary(q: bool, s: seq<bv8>, delims: set<bv8>): (r: Option<nat>)
    ensures r.Some? ==> IsFirstBoundary(q, s, delims, r.value)
    ensures r.None? ==> NoBoundary(q, s, delims)
  {
    FindFrom(q, s, delims, 0)
  }

  /** There is only one first boundary, so FindBoundary is the function the scans compute. */
  lemma FirstBoundaryUnique(q: bool, s: seq<bv8>, delims: set<bv8>, k: int, m: int)
    requires IsFirstBoundary(q, s, delims, k) && IsFirstBoundary(q, s, delims, m)
    ensures k == m
  {
  }

  /** Scanning a + b is scanning b from the state a leaves. */
  lemma {:induction false} QuotedAppend(q: bool, a: seq<bv8>, b: seq<bv8>)
    ensures Quoted(q, a + b) == Quoted(Quoted(q, a), b)
    decreases |b|
  {
    if b == [] {
      assert a + b == a;
    } else {
      var c := a + b;
      assert c[..|c| - 1] == a + b[..|b| - 1];
      assert c[|c| - 1] == b[|b| - 1];
      QuotedAppend(q, a, b[..|b| - 1]);
    }
  }

  /** The number of quote bytes in s. */
  function QuoteCount(s: seq<bv8>): nat
    decreases |s|
  {
    if s == [] then 0 else QuoteCount(s[..|s| - 1]) + (if s[|s| - 1] == QUOTE then 1 else 0)
  }

  /** The quote flag is the parity of the quote bytes seen: it is on after an odd number of them. */
  lemma {:induction false} QuotedIsParity(q: bool, s: seq<bv8>)
    ensures Quoted(q, s) == (q != (QuoteCount(s) % 2 == 1))
    decreases |s|
  {
    if s != [] {
      QuotedIsParity(q, s[..|s| - 1]);
    }
  }

  /** A delimiter preceded by an odd number of quote bytes is never a boundary. */
  lemma OddQuotesHideDelimiter(s: seq<bv8>, i: nat, delims: set<bv8>)
    requires i < |s| && QUOTE !in delims
    requires QuoteCount(s[..i]) % 2 == 1
    ensures !Boundary(false, s, i, delims)
  {
    if s[i] in delims {
      assert s[..i + 1][..i] == s[..i];
      QuotedIsParity(false, s[..i + 1]);
    }
  }

  /** Indices inside a are boundaries of a + b exactly when they are boundaries of a. */
  lemma BoundaryInPrefix(q: bool, a: seq<bv8>, b: seq<bv8>, j: int, delims: set<bv8>)
    requires 0 <= j < |a|
    ensures Boundary(q, a + b, j, delims) == Boundary(q, a, j, delims)
  {
    assert (a + b)[..j + 1] == a[..j + 1];
  }

  /** Indices inside b are boundaries of a + b exactly when b has them from the flag a leaves. */
  lemma BoundaryInSuffix(q: bool, a: seq<bv8>, b: seq<bv8>, j: int, delims: set<bv8>)
    requires 0 <= j < |b|
    ensures Boundary(q, a + b, |a| + j, delims) == Boundary(Quoted(q, a), b, j, delims)
  {
    assert (a + b)[..|a| + j + 1] == a + b[..j + 1];
    QuotedAppend(q, a, b[..j + 1]);
  }

  /** The first boundary of a prefix is the first boundary of the whole sequence. */
  lemma FirstBoundaryOfPrefix(q: bool, a: seq<bv8>, b: seq<bv8>, delims: set<bv8>, k: int)
    requires IsFirstBoundary(q, a, delims, k)
    ensures IsFirstBoundary(q, a + b, delims, k)
  {
    BoundaryInPrefix(q, a, b, k, delims);
    forall j | 0 <= j < k ensures !Boundary(q, a + b, j, delims) {
      BoundaryInPrefix(q, a, b, j, delims);
    }
  }

  /**
   * A field split over two buffers ends where it would end if the two parts were one:
   * when the tail has no boundary, the first boundary of the head, scanned from the
   * flag the tail leaves, is the first boundary of tail + head.
   */
  lemma BoundaryAcrossBuffers(q: bool, tail: seq<bv8>, head: seq<bv8>, delims: set<bv8>, k: int)
    requires NoBoundary(q, tail, delims)
    requires IsFirstBoundary(Quoted(q, tail), head, delims, k)
    ensures IsFirstBoundary(q, tail + head, delims, |tail| + k)
  {
    BoundaryInSuffix(q, tail, head, k, delims);
    forall j | 0 <= j < |tail| ensures !Boundary(q, tail + head, j, delims) {
      BoundaryInPrefix(q, tail, head, j, delims);
    }
    forall j | |tail| <= j < |tail| + k ensures !Boundary(q, tail + head, j, delims) {
      BoundaryInSuffix(q, tail, head, j - |tail|, delims);
    }
  }

  /** Neither buffer has a boundary, so neither has their concatenation. */
  lemma NoBoundaryAcrossBuffers(q: bool, tail: seq<bv8>, head: seq<bv8>, delims: set<bv8>)
    requires NoBoundary(q, tail, delims)
    requires NoBoundary(Quoted(q, tail), head, delims)
    ensures NoBoundary(q, tail + head, delims)
  {
    forall j | 0 <= j < |tail| ensures !Boundary(q, tail + head, j, delims) {
      BoundaryInPrefix(q, tail, head, j, delims);
    }
    forall j | |tail| <= j < |tail| + |head| ensures !Boundary(q, tail + head, j, delims) {
      BoundaryInSuffix(q, tail, head, j - |tail|, delims);
    }
  }

  /**
   * Finding the first boundary of tail + head, when tail has none, is finding the first
   * boundary of head from the quote state tail leaves, shifted by |tail|.
   */
  lemma FindAcrossBuffers(q: bool, tail: seq<bv8>, head: seq<bv8>, delims: set<bv8>)
    requires NoBoundary(q, tail, delims)
    ensures FindBoundary(q, tail + head, delims) ==
            match FindBoundary(Quoted(q, tail), head, delims)
            case Some(k) => Some(|tail| + k)
            case None => None
  {
    var h := FindBoundary(Quoted(q, tail), head, delims);
    if h.Some? {
      FindAcrossSome(q, tail, head, delims, h.value);
    } else {
      FindAcrossNone(q, tail, head, delims);
    }
  }

  lemma FindAcrossSome(q: bool, tail: seq<bv8>, head: seq<bv8>, delims: set<bv8>, k: nat)
    requires NoBoundary(q, tail, delims)
    requires FindBoundary(Quoted(q, tail), head, delims) == Some(k)
    ensures FindBoundary(q, tail + head, delims) == Some(|tail| + k)
  {
    BoundaryAcrossBuffers(q, tail, head, delims, k);
    FindBoundaryIsFirst(q, tail + head, delims, |tail| + k);
  }

  lemma FindAcrossNone(q: bool, tail: seq<bv8>, head: seq<bv8>, delims: set<bv8>)
    requires NoBoundary(q, tail, delims)
    requires FindBoundary(Quoted(q, tail), head, delims) == None
    ensures FindBoundary(q, tail + head, delims) == None
  {
    NoBoundaryAcrossBuffers(q, tail, head, delims);
    FindBoundaryIsNone(q, tail + head, delims);
  }

  /** FindBoundary answers the first boundary whenever there is one. */
  lemma FindBoundaryIsFirst(q: bool, s: seq<bv8>, delims: set<bv8>, k: int)
    requires IsFirstBoundary(q, s, delims, k)
    ensures FindBoundary(q, s, delims) == Some(k)
  {
    var r := FindBoundary(q, s, delims);
    assert Boundary(q, s, k, delims);
    FirstBoundaryUnique(q, s, delims, k, r.value);
  }

  /** FindBoundary answers None when there is no boundary at all. */
  lemma FindBoundaryIsNone(q: bool, s: seq<bv8>, delims: set<bv8>)
    requires NoBoundary(q, s, delims)
    ensures FindBoundary(q, s, delims) == None
  {
    var r := FindBoundary(q, s, delims);
    assert r.Some? ==> Boundary(q, s, r.value, delims);
  }

  /** How many boundaries lie in s[..n]. */
  function CountBoundaries(q: bool, s: seq<bv8>, delims: set<bv8>, n: nat): nat
    requires n <= |s|
  {
    if n == 0 then 0
    else CountBoundaries(q, s, delims, n - 1) + (if Boundary(q, s, n - 1, delims) then 1 else 0)
  }

  /**
   * The number of columns of the record at the start of s: the unquoted field
   * delimiters before the first unquoted record delimiter, plus one for that record
   * delimiter when there is one.
   */
  function ColumnCount(s: seq<bv8>): nat
  {
    match FindBoundary(false, s, RECORD_END)
    case Some(k) => CountBoundaries(false, s, FIELD_ONLY, k) + 1
    case None => CountBoundaries(false, s, FIELD_ONLY, |s|)
  }

  lemma {:induction false} CountInPrefix(q: bool, a: seq<bv8>, b: seq<bv8>, delims: set<bv8>, n: nat)
    requires n <= |a|
    ensures CountBoundaries(q, a + b, delims, n) == CountBoundaries(q, a, delims, n)
    decreases n
  {
    if n > 0 {
      BoundaryInPrefix(q, a, b, n - 1, delims);
      CountInPrefix(q, a, b, delims, n - 1);
    }
  }

  lemma {:induction false} CountAcross(q: bool, a: seq<bv8>, b: seq<bv8>, delims: set<bv8>, n: nat)
    requires n <= |b|
    ensures CountBoundaries(q, a + b, delims, |a| + n) ==
            CountBoundaries(q, a, delims, |a|) + CountBoundaries(Quoted(q, a), b, delims, n)
    decreases n
  {
    if n == 0 {
      CountInPrefix(q, a, b, delims, |a|);
    } else {
      BoundaryInSuffix(q, a, b, n - 1, delims);
      CountAcross(q, a, b, delims, n - 1);
    }
  }

  lemma {:induction false} CountNone(q: bool, s: seq<bv8>, delims: set<bv8>, n: nat)
    requires n <= |s| && NoBoundary(q, s, delims)
    ensures CountBoundaries(q, s, delims, n) == 0
    decreases n
  {
    if n > 0 {
      CountNone(q, s, delims, n - 1);
    }
  }

  /** A field without quote or delimiter bytes. */
  predicate PlainField(f: seq<bv8>)
  {
    forall i :: 0 <= i < |f| ==> f[i] != QUOTE && f[i] != FIELD_DELIM && f[i] != RECORD_DELIM
  }

  /** The text of a record: its fields joined by commas, ended by a newline. */
  function RecordText(fields: seq<seq<bv8>>): seq<bv8>
    requires fields != []
    decreases |fields|
  {
    if |fields| == 1 then fields[0] + [RECORD_DELIM]
    else fields[0] + [FIELD_DELIM] + RecordText(fields[1..])
  }

  lemma {:induction false} PlainKeepsFlag(q: bool, f: seq<bv8>)
    requires PlainField(f)
    ensures Quoted(q, f) == q
    decreases |f|
  {
    if f != [] {
      PlainKeepsFlag(q, f[..|f| - 1]);
    }
  }

  lemma NoBoundaryInPlain(q: bool, f: seq<bv8>, delims: set<bv8>)
    requires PlainField(f) && delims <= FIELD_END
    ensures NoBoundary(q, f, delims)
  {
  }

  /** A plain field followed by its delimiter d: what the scan sees at d and after it. */
  lemma PlainFieldThenDelimiter(f: seq<bv8>, d: bv8, delims: set<bv8>)
    requires PlainField(f) && d != QUOTE && delims <= FIELD_END
    ensures Quoted(false, f + [d]) == false
    ensures forall j :: 0 <= j < |f| ==> !Boundary(false, f + [d], j, delims)
    ensures Boundary(false, f + [d], |f|, delims) == (d in delims)
  {
    var a := f + [d];
    assert a[..|f|] == f;
    PlainKeepsFlag(false, f);
    assert a[..|f| + 1] == a;
    forall j | 0 <= j < |f| ensures !Boundary(false, a, j, delims) {
      assert a[j] == f[j];
    }
  }

  /** The record's last field: one column, ended by the record delimiter. */
  lemma ColumnCountOfLastField(f: seq<bv8>, rest: seq<bv8>)
    requires PlainField(f)
    ensures ColumnCount(f + [RECORD_DELIM] + rest) == 1
  {
    var a := f + [RECORD_DELIM];
    var s := a + rest;
    PlainFieldThenDelimiter(f, RECORD_DELIM, RECORD_END);
    PlainFieldThenDelimiter(f, RECORD_DELIM, FIELD_ONLY);
    FirstBoundaryOfPrefix(false, a, rest, RECORD_END, |f|);
    FindBoundaryIsFirst(false, s, RECORD_END, |f|);
    CountInPrefix(false, a, rest, FIELD_ONLY, |f|);
    CountNone(false, a, FIELD_ONLY, |f|);
  }

  /** A leading field and its comma add one column to what follows. */
  lemma ColumnCountStep(f: seq<bv8>, more: seq<bv8>)
    requires PlainField(f)
    ensures ColumnCount(f + [FIELD_DELIM] + more) == ColumnCount(more) + 1
  {
    var a := f + [FIELD_DELIM];
    var s := a + more;
    PlainFieldThenDelimiter(f, FIELD_DELIM, RECORD_END);
    PlainFieldThenDelimiter(f, FIELD_DELIM, FIELD_ONLY);
    assert CountBoundaries(false, a, FIELD_ONLY, |a|) == 1 by {
      CountNone(false, f, FIELD_ONLY, |f|);
      CountInPrefix(false, f, [FIELD_DELIM], FIELD_ONLY, |f|);
    }
    match FindBoundary(false, more, RECORD_END) {
      case Some(k) =>
        FindAcrossSome(false, a, more, RECORD_END, k);
        CountAcross(false, a, more, FIELD_ONLY, k);
      case None =>
        FindAcrossNone(false, a, more, RECORD_END);
        CountAcross(false, a, more, FIELD_ONLY, |more|);
    }
  }

  /** getColumnCount on a record of n plain fields finds n columns. */
  lemma {:induction false} ColumnCountOfRecord(fields: seq<seq<bv8>>, rest: seq<bv8>)
    requires fields != []
    requires forall i :: 0 <= i < |fields| ==> PlainField(fields[i])
    ensures ColumnCount(RecordText(fields) + rest) == |fields|
    decreases |fields|
  {
    if |fields| == 1 {
      ColumnCountOfLastField(fields[0], rest);
    } else {
      var more := RecordText(fields[1..]) + rest;
      assert RecordText(fields) + rest == fields[0] + [FIELD_DELIM] + more;
      ColumnCountOfRecord(fields[1..], rest);
      ColumnCountStep(fields[0], more);
    }
  }

  /**
   * readField on the text of a record cuts exactly its first field: the first unquoted
   * delimiter follows that field, and what comes after it is the text of the other fields.
   */
  lemma FirstFieldOfRecord(fields: seq<seq<bv8>>, rest: seq<bv8>)
    requires fields != []
    requires forall i :: 0 <= i < |fields| ==> PlainField(fields[i])
    ensures FindBoundary(false, RecordText(fields) + rest, FIELD_END) == Some(|fields[0]|)
    ensures (RecordText(fields) + rest)[..|fields[0]|] == fields[0]
    ensures |fields| > 1 ==> (RecordText(fields) + rest)[|fields[0]| + 1..] == RecordText(fields[1..]) + rest
  {
    var f := fields[0];
    var d, more;
    if |fields| == 1 {
      d, more := RECORD_DELIM, rest;
    } else {
      d, more := FIELD_DELIM, RecordText(fields[1..]) + rest;
    }
    var s := (f + [d]) + more;
    assert RecordText(fields) + rest == s;
    PlainFieldThenDelimiter(f, d, FIELD_END);
    FirstBoundaryOfPrefix(false, f + [d], more, FIELD_END, |f|);
    FindBoundaryIsFirst(false, s, FIELD_END, |f|);
    assert s[..|f|] == f;
    assert s[|f| + 1..] == more;
  }

  /** The newline after a record's last field is the first unquoted one. */
  lemma RecordEndOfLastField(f: seq<bv8>, rest: seq<bv8>)
    requires PlainField(f)
    ensures FindBoundary(false, (f + [RECORD_DELIM]) + rest, RECORD_END) == Some(|f|)
  {
    PlainFieldThenDelimiter(f, RECORD_DELIM, RECORD_END);
    FirstBoundaryOfPrefix(false, f + [RECORD_DELIM], rest, RECORD_END, |f|);
    FindBoundaryIsFirst(false, (f + [RECORD_DELIM]) + rest, RECORD_END, |f|);
  }

  /** seekRecord on the text of a record stops at its newline, just before what follows. */
  lemma {:induction false} RecordEndOfRecord(fields: seq<seq<bv8>>, rest: seq<bv8>)
    requires fields != []
    requires forall i :: 0 <= i < |fields| ==> PlainField(fields[i])
    ensures FindBoundary(false, RecordText(fields) + rest, RECORD_END) == Some(|RecordText(fields)| - 1)
    decreases |fields|
  {
    var f := fields[0];
    if |fields| == 1 {
      assert RecordText(fields) + rest == (f + [RECORD_DELIM]) + rest;
      RecordEndOfLastField(f, rest);
    } else {
      var a := f + [FIELD_DELIM];
      var more := RecordText(fields[1..]) + rest;
      assert RecordText(fields) + rest == a + more;
      assert |RecordText(fields)| == |a| + |RecordText(fields[1..])|;
      PlainFieldThenDelimiter(f, FIELD_DELIM, RECORD_END);
      RecordEndOfRecord(fields[1..], rest);
      FindAcrossSome(false, a, more, RECORD_END, |RecordText(fields[1..])| - 1);
    }
  }

  /**
   * texts are the fields cut one after the other from the front of s: each is the
   * bytes before the first unquoted field or record delimiter of what is left.
   */
  ghost predicate Cuts(texts: seq<seq<bv8>>, s: seq<bv8>)
    decreases |texts|
  {
    texts == [] ||
    (&& FindBoundary(false, s, FIELD_END) == Some(|texts[0]|)
     && s[..|texts[0]|] == texts[0]
     && Cuts(texts[1..], s[|texts[0]| + 1..]))
  }

  /** What is left of s once the fields texts and their delimiters are cut off. */
  ghost function After(texts: seq<seq<bv8>>, s: seq<bv8>): seq<bv8>
    requires Cuts(texts, s)
    decreases |texts|
  {
    if texts == [] then s else After(texts[1..], s[|texts[0]| + 1..])
  }

  /** One more field cut from what is left extends the cuts by that field. */
  lemma {:induction false} CutsExtend(texts: seq<seq<bv8>>, s: seq<bv8>, t: seq<bv8>)
    requires Cuts(texts, s)
    requires FindBoundary(false, After(texts, s), FIELD_END) == Some(|t|)
    requires After(texts, s)[..|t|] == t
    ensures Cuts(texts + [t], s)
    ensures After(texts + [t], s) == After(texts, s)[|t| + 1..]
    decreases |texts|
  {
    if texts == [] {
      assert texts + [t] == [t] && [t][1..] == [];
    } else {
      var more := s[|texts[0]| + 1..];
      CutsExtend(texts[1..], more, t);
      assert (texts + [t])[0] == texts[0];
      assert (texts + [t])[1..] == texts[1..] + [t];
    }
  }

  /** The cuts of s are determined by s: two lists of cuts agree on their common length. */
  lemma {:induction false} CutsAgree(a: seq<seq<bv8>>, b: seq<seq<bv8>>, s: seq<bv8>)
    requires Cuts(a, s) && Cuts(b, s) && |a| <= |b|
    ensures a == b[..|a|]
    decreases |a|
  {
    if a != [] {
      CutsAgree(a[1..], b[1..], s[|a[0]| + 1..]);
      assert a == [a[0]] + a[1..];
      assert b[..|a|] == [b[0]] + b[1..][..|a| - 1];
    }
  }

  /** Cutting the text of a record of plain fields yields its fields and leaves what follows. */
  lemma {:induction false} CutsOfRecord(fields: seq<seq<bv8>>, rest: seq<bv8>)
    requires fields != []
    requires forall i :: 0 <= i < |fields| ==> PlainField(fields[i])
    ensures Cuts(fields, RecordText(fields) + rest)
    ensures After(fields, RecordText(fields) + rest) == rest
    decreases |fields|
  {
    var s := RecordText(fields) + rest;
    FirstFieldOfRecord(fields, rest);
    if |fields| == 1 {
      assert s == fields[0] + [RECORD_DELIM] + rest;
      assert s[|fields[0]| + 1..] == rest;
      assert fields[1..] == [];
    } else {
      CutsOfRecord(fields[1..], rest);
    }
  }

  /** Bytes taken by the fields texts and one delimiter after each. */
  function Consumed(texts: seq<seq<bv8>>): nat
  {
    if texts == [] then 0 else |texts[0]| + 1 + Consumed(texts[1..])
  }

  lemma {:induction false} ConsumedSnoc(texts: seq<seq<bv8>>, t: seq<bv8>)
    ensures Consumed(texts + [t]) == Consumed(texts) + |t| + 1
    decreases |texts|
  {
    if texts != [] {
      assert (texts + [t])[1..] == texts[1..] + [t];
      ConsumedSnoc(texts[1..], t);
    }
  }

  /** The cut fields and what is left after them account for every byte of the stream. */
  lemma {:induction false} CutsConsume(texts: seq<seq<bv8>>, s: seq<bv8>)
    requires Cuts(texts, s)
    ensures |s| == Consumed(texts) + |After(texts, s)|
    decreases |texts|
  {
    if texts != [] {
      CutsConsume(texts[1..], s[|texts[0]| + 1..]);
    }
  }
}
