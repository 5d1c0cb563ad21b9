/**
 * The sequential part of the CSV reader of DikeAsyncReader.hpp: a reader that cuts
 * fields out of a chain of filled buffers in place, copying a field that straddles two
 * buffers into the record's own memory.
 *
 * The worker thread that fills the buffers is not modelled: the buffers it has made
 * ready are the queue workQ, and getBuffer pops that queue.
 */
module DikeAsync {
  import opened Wrappers
  import opened CsvScan

  /** DikeRecord::FIELED_SIZE: the size of one field slot in fieldMemory. */
  const FIELD_SIZE: nat := 1024
  const MAX_COLUMNS: nat := 128

  /** A filled buffer: data[pos..end] is still to be parsed. */
  class DikeBuffer {
    const data: array<bv8>
    var pos: nat
    var end: nat

    ghost predicate Valid()
      reads this
    {
      pos <= end <= data.Length
    }

    ghost function Unread(): seq<bv8>
      requires Valid()
      reads this, data
    {
      data[pos..end]
    }

    constructor(data: array<bv8>, readable: nat)
      requires readable <= data.Length
      ensures Valid() && this.data == data && pos == 0 && end == readable
    {
      this.data := data;
      pos := 0;
      end := readable;
    }
  }

  /** Where a field's text lives: in a buffer, in place, or in its own slot of fieldMemory. */
  datatype FieldRef = Null | InBuffer(data: array<bv8>, at: nat) | InMemory(slot: nat)

  class DikeRecord {
    const nCol: nat
    const fields: array<FieldRef>
    /** fieldMemory: row i is the FIELD_SIZE-byte slot of column i. */
    const memory: array2<bv8>
    const len: array<int>

    predicate Valid()
    {
      && nCol <= MAX_COLUMNS
      && fields.Length == MAX_COLUMNS
      && len.Length == MAX_COLUMNS
      && memory.Length0 == MAX_COLUMNS && memory.Length1 == FIELD_SIZE
    }

    constructor(col: nat)
      requires col <= MAX_COLUMNS
      ensures Valid() && nCol == col
      ensures fresh(fields) && fresh(memory) && fresh(len)
      ensures forall i :: 0 <= i < col ==> fields[i] == Null && len[i] == 0
    {
      nCol := col;
      memory := new bv8[MAX_COLUMNS, FIELD_SIZE];
      var f := new FieldRef[MAX_COLUMNS];
      var l := new int[MAX_COLUMNS];
      for i := 0 to col
        invariant forall j :: 0 <= j < i ==> f[j] == Null && l[j] == 0
      {
        f[i] := Null;
        l[i] := 0;
      }
      fields := f;
      len := l;
    }
  }

  /**
   * The scan loop shared by seekRecord and readField: walk data[from..to] toggling the
   * quote flag, and stop at the first unquoted byte of delims.
   */
  method Scan(data: array<bv8>, from: nat, to: nat, q: bool, delims: set<bv8>) returns (r: Option<nat>, under: bool)
    requires from <= to <= data.Length
    ensures r == FindBoundary(q, data[from..to], delims)
    ensures r.Some? ==> r.value < to - from
    ensures r.None? ==> under == Quoted(q, data[from..to])
  {
    ghost var s := data[from..to];
    var i := 0;
    under := q;
    while from + i < to
      invariant 0 <= i <= to - from
      invariant under == Quoted(q, s[..i])
      invariant forall j :: 0 <= j < i ==> !Boundary(q, s, j, delims)
    {
      var c := data[from + i];
      assert s[..i + 1][..i] == s[..i];
      if c == QUOTE {
        under := !under;
      }
      if !under && c in delims {
        assert IsFirstBoundary(q, s, delims, i);
        FirstBoundaryUnique(q, s, delims, i, FindBoundary(q, s, delims).value);
        return Some(i), under;
      }
      i := i + 1;
    }
    assert s[..i] == s;
    return None, under;
  }

  /** Copy src[from..from + n] into row slot of mem, starting at column at. */
  method CopyIntoSlot(mem: array2<bv8>, slot: nat, at: nat, src: array<bv8>, from: nat, n: nat)
    requires mem as object != src
    requires slot < mem.Length0 && at + n <= mem.Length1 && from + n <= src.Length
    modifies mem
    ensures forall j :: at <= j < at + n ==> mem[slot, j] == src[from + (j - at)]
    ensures forall j :: 0 <= j < mem.Length1 && !(at <= j < at + n) ==> mem[slot, j] == old(mem[slot, j])
    ensures forall i, j :: 0 <= i < mem.Length0 && i != slot && 0 <= j < mem.Length1 ==>
              mem[i, j] == old(mem[i, j])
  {
    for c := 0 to n
      invariant forall j :: at <= j < at + c ==> mem[slot, j] == src[from + (j - at)]
      invariant forall j :: 0 <= j < mem.Length1 && !(at <= j < at + c) ==> mem[slot, j] == old(mem[slot, j])
      invariant forall i, j :: 0 <= i < mem.Length0 && i != slot && 0 <= j < mem.Length1 ==>
                  mem[i, j] == old(mem[i, j])
    {
      mem[slot, at + c] := src[from + c];
    }
  }

  /** Cutting tail + head at byte k of head: the field before the delimiter, and what follows it. */
  lemma CutAcross(tail: seq<bv8>, head: seq<bv8>, k: nat)
    requires k < |head|
    ensures (tail + head)[..|tail| + k] == tail + head[..k]
    ensures (tail + head)[|tail| + k + 1..] == head[k + 1..]
  {
  }

  /**
   * The bytes readField stores into fieldMemory[pos] on its straddle path as written:
   * the whole tail of the old buffer, then the head of the new one up to and including
   * the delimiter, or all of the head when it has none. Nothing bounds it by FIELD_SIZE.
   */
  function StraddleWrites(tail: seq<bv8>, head: seq<bv8>): (n: nat)
    ensures |tail| <= n <= |tail| + |head|
  {
    match FindBoundary(Quoted(false, tail), head, FIELD_END)
    case Some(k) => |tail| + k + 1
    case None => |tail| + |head|
  }

  /** What StraddleWrites stores is the field of tail + head through its delimiter, or all of it. */
  lemma StraddleWritesWholeField(tail: seq<bv8>, head: seq<bv8>)
    requires NoBoundary(false, tail, FIELD_END)
    ensures match FindBoundary(false, tail + head, FIELD_END)
            case Some(k) => StraddleWrites(tail, head) == k + 1
            case None => StraddleWrites(tail, head) == |tail + head|
  {
    FindAcrossBuffers(false, tail, head, FIELD_END);
  }

  /** A field of 1024 plain bytes ending in the next buffer: 1025 bytes go into a 1024-byte slot. */
  lemma StraddleOverrunsSlot()
    ensures var tail := seq(FIELD_SIZE, _ => 0x61 as bv8);
            && NoBoundary(false, tail, FIELD_END)
            && StraddleWrites(tail, [FIELD_DELIM]) == FIELD_SIZE + 1
  {
    var tail := seq(FIELD_SIZE, _ => 0x61 as bv8);
    assert PlainField(tail);
    NoBoundaryInPlain(false, tail, FIELD_END);
    PlainKeepsFlag(false, tail);
    assert Boundary(false, [FIELD_DELIM], 0, FIELD_END) by {
      assert [FIELD_DELIM][..1] == [FIELD_DELIM];
      assert Quoted(false, [FIELD_DELIM]) == Quoted(false, []) by {
        assert [FIELD_DELIM][..0] == [];
      }
    }
    FirstBoundaryUnique(false, [FIELD_DELIM], FIELD_END, 0, FindBoundary(false, [FIELD_DELIM], FIELD_END).value);
  }

  /** The field text does not fit, or never ends: the straddle path gives up. */
  ghost predicate Unfit(s: seq<bv8>)
  {
    match FindBoundary(false, s, FIELD_END)
    case Some(k) => k + 1 > FIELD_SIZE
    case None => true
  }

  /** The bytes of a queue of buffers, one after the other. */
  function Flatten(queue: seq<seq<bv8>>): seq<bv8>
  {
    if queue == [] then [] else queue[0] + Flatten(queue[1..])
  }

  /** Moving into the next buffer: what is left of the stream, regrouped at the buffer boundary. */
  lemma MoveOn(cur: seq<bv8>, queue: seq<seq<bv8>>)
    requires queue != []
    ensures cur + Flatten(queue) == cur + queue[0] + Flatten(queue[1..])
  {
    assert cur + (queue[0] + Flatten(queue[1..])) == (cur + queue[0]) + Flatten(queue[1..]);
  }

  /**
   * n more fields can be read from cur, with the ready buffers queue behind it, without
   * waiting on getBuffer: each field that does not end in the current buffer finds a
   * next buffer ready. Reading stops at a field that fails, so nothing is asked after it.
   */
  ghost predicate Ready(n: nat, cur: seq<bv8>, queue: seq<seq<bv8>>)
    decreases n
  {
    n == 0 ||
    match FindBoundary(false, cur, FIELD_END)
    case Some(k) => Ready(n - 1, cur[k + 1..], queue)
    case None =>
      && queue != []
      && match FindBoundary(false, cur + queue[0], FIELD_END)
         case Some(k) => k + 1 > FIELD_SIZE || Ready(n - 1, (cur + queue[0])[k + 1..], queue[1..])
         case None => true
  }

  /** A whole record of plain fields in the current buffer is ready, with no buffer queued. */
  lemma {:induction false} RecordInBufferIsReady(fields: seq<seq<bv8>>, rest: seq<bv8>, queue: seq<seq<bv8>>)
    requires fields != []
    requires forall i :: 0 <= i < |fields| ==> PlainField(fields[i])
    ensures Ready(|fields|, RecordText(fields) + rest, queue)
    decreases |fields|
  {
    FirstFieldOfRecord(fields, rest);
    if |fields| > 1 {
      RecordInBufferIsReady(fields[1..], rest, queue);
    }
  }

  /**
   * The field readField cuts from the window w, a prefix of what is left of the stream,
   * is the next cut of the stream.
   */
  lemma CutStep(texts: seq<seq<bv8>>, s: seq<bv8>, w: seq<bv8>, more: seq<bv8>, n: int)
    requires Cuts(texts, s) && After(texts, s) == w + more
    requires 1 <= n <= |w| && FindBoundary(false, w, FIELD_END) == Some(n - 1)
    ensures Cuts(texts + [w[..n - 1]], s)
    ensures After(texts + [w[..n - 1]], s) == w[n..] + more
  {
    var left := After(texts, s);
    FirstBoundaryOfPrefix(false, w, more, FIELD_END, n - 1);
    FirstBoundaryUnique(false, left, FIELD_END, n - 1, FindBoundary(false, left, FIELD_END).value);
    assert left[..n - 1] == w[..n - 1];
    CutsExtend(texts, s, w[..n - 1]);
    assert left[n..] == w[n..] + more;
  }

  /** Once readField has cut a field of n bytes from the window w, one field fewer is ready. */
  lemma ReadyStep(m: nat, cur: seq<bv8>, queue: seq<seq<bv8>>, w: seq<bv8>, n: int, moved: bool)
    requires m >= 1 && Ready(m, cur, queue)
    requires 1 <= n <= |w| && FindBoundary(false, w, FIELD_END) == Some(n - 1)
    requires !moved ==> w == cur
    requires moved ==> queue != [] && w == cur + queue[0] && NoBoundary(false, cur, FIELD_END) && n <= FIELD_SIZE
    ensures Ready(m - 1, w[n..], if moved then queue[1..] else queue)
  {
    if moved {
      assert FindBoundary(false, cur, FIELD_END).None?;
    }
  }

  /**
   * Cutting the next field, n - 1 bytes long, from the window w: the cuts grow by it and the
   * readiness of the fields after it carries over to what is left.
   */
  lemma Advance(texts: seq<seq<bv8>>, s: seq<bv8>, queue: seq<seq<bv8>>, rest: seq<seq<bv8>>,
                cur: seq<bv8>, w: seq<bv8>, n: int, m: nat, moved: bool)
    requires Cuts(texts, s) && After(texts, s) == cur + Flatten(queue)
    requires m >= 1 && Ready(m, cur, queue)
    requires 1 <= n <= |w| && FindBoundary(false, w, FIELD_END) == Some(n - 1)
    requires !moved ==> w == cur && rest == queue
    requires moved ==> && queue != [] && w == cur + queue[0] && rest == queue[1..]
                       && NoBoundary(false, cur, FIELD_END) && n <= FIELD_SIZE
    ensures Cuts(texts + [w[..n - 1]], s) && After(texts + [w[..n - 1]], s) == w[n..] + Flatten(rest)
    ensures Ready(m - 1, w[n..], rest)
  {
    if moved {
      MoveOn(cur, queue);
    }
    CutStep(texts, s, w, Flatten(rest), n);
    ReadyStep(m, cur, queue, w, n, moved);
  }

  class DikeAsyncReader {
    /** Reads stop once more than one HDFS block has been consumed; 0 means no limit. */
    const blockSize: nat
    const record: DikeRecord
    /** Every buffer of the pool, with its bytes. */
    ghost const Repr: set<object>
    var bytesRead: nat
    /** The buffer being parsed. */
    var buffer: DikeBuffer
    /** work_q: buffers the worker has filled, in order. */
    var workQ: seq<DikeBuffer>
    /** free_q: buffers handed back for refilling. */
    var freeQ: seq<DikeBuffer>
    /** tmp_q: buffers parsed to the end but still referenced by the current record. */
    var tmpQ: seq<DikeBuffer>
    var pushCount: int
    var emptyCount: int
    var recordCount: nat

    /** The buffers still to be parsed: the current one, then the ready ones. */
    ghost function Live(): seq<DikeBuffer>
      reads this
    {
      [buffer] + workQ
    }

    ghost predicate Valid()
      reads this, Repr
    {
      && record.Valid() && this !in Repr
      && record.fields !in Repr && record.len !in Repr && record.memory !in Repr
      && buffer in Repr && buffer.data in Repr && buffer.Valid()
      && (forall i :: 0 <= i < |workQ| ==> workQ[i] in Repr && workQ[i].data in Repr && workQ[i].Valid())
      && (forall i :: 0 <= i < |workQ| ==> workQ[i] != buffer && workQ[i].data != buffer.data)
      && (forall i, j :: 0 <= i < j < |workQ| ==> workQ[i] != workQ[j] && workQ[i].data != workQ[j].data)
    }

    /**
     * The bytes readField may look at: the rest of the current buffer and, when no field
     * ends there, the next ready buffer too.
     */
    ghost function Window(): seq<bv8>
      requires Valid()
      reads this, Repr
    {
      if NoBoundary(false, buffer.Unread(), FIELD_END) && workQ != [] then
        buffer.Unread() + workQ[0].Unread()
      else
        buffer.Unread()
    }

    /** The buffer readField moves into when a field runs past the current one. */
    ghost function NextReady(): set<DikeBuffer>
      reads this
    {
      if workQ == [] then {} else {workQ[0]}
    }

    /** queue is what is left to parse in each ready buffer, in order. */
    ghost predicate Mirrors(queue: seq<seq<bv8>>)
      requires Valid()
      reads this, Repr
    {
      |queue| == |workQ| && forall t :: 0 <= t < |workQ| ==> workQ[t].Unread() == queue[t]
    }

    /** Field pos holds text followed by a NUL, in place in a buffer or in its memory slot. */
    ghost predicate Holds(f: FieldRef, pos: nat, text: seq<bv8>)
      reads record.memory, if f.InBuffer? then {f.data} else {}
    {
      match f
      case Null => false
      case InBuffer(d, at) =>
        at + |text| < d.Length && d[at..at + |text|] == text && d[at + |text|] == 0
      case InMemory(slot) =>
        && slot == pos < record.memory.Length0
        && |text| < record.memory.Length1
        && (forall j :: 0 <= j < |text| ==> record.memory[pos, j] == text[j])
        && record.memory[pos, |text|] == 0
    }

    /**
     * Field j is read and holds text: its length counts the delimiter, and a field left
     * in place lies in a pool buffer behind the parse position, never in a ready buffer,
     * so reading on cannot overwrite it.
     */
    ghost predicate Settled(j: nat, text: seq<bv8>)
      requires Valid() && j < MAX_COLUMNS
      reads this, Repr, record.fields, record.len, record.memory
    {
      && record.len[j] == |text| + 1
      && match record.fields[j]
         case Null => false
         case InMemory(_) => Holds(record.fields[j], j, text)
         case InBuffer(d, at) =>
           && d in Repr
           && Holds(record.fields[j], j, text)
           && (d == buffer.data ==> at + |text| < buffer.pos)
           && (forall t :: 0 <= t < |workQ| ==> d != workQ[t].data)
    }

    /**
     * Field pos was read as the first field of w: it ended with the delimiter at byte
     * n - 1, holds the bytes before it, and the current buffer resumes just past it.
     */
    ghost predicate FieldCut(pos: nat, w: seq<bv8>, n: int)
      requires Valid() && pos < MAX_COLUMNS
      reads this, Repr, record.fields, record.len, record.memory
    {
      && 1 <= n <= |w|
      && FindBoundary(false, w, FIELD_END) == Some(n - 1)
      && Settled(pos, w[..n - 1])
      && buffer.Unread() == w[n..]
    }

    /** The reader once the worker has filled the buffers in ready and the record is set up. */
    constructor(blockSize: nat, record: DikeRecord, ready: seq<DikeBuffer>)
      requires record.Valid() && ready != []
      requires forall i :: 0 <= i < |ready| ==> ready[i].Valid()
      requires forall i :: 0 <= i < |ready| ==>
                 && ready[i].data as object != record.memory
                 && ready[i].data as object != record.fields
                 && ready[i].data as object != record.len
      requires forall i, j :: 0 <= i < j < |ready| ==> ready[i] != ready[j] && ready[i].data != ready[j].data
      ensures Valid() && Live() == ready
      ensures this.blockSize == blockSize && this.record == record
      ensures bytesRead == 0 && freeQ == [] && tmpQ == []
      ensures pushCount == 0 && emptyCount == 0 && recordCount == 0
    {
      this.blockSize := blockSize;
      this.record := record;
      Repr := (set i | 0 <= i < |ready| :: ready[i] as object) + (set i | 0 <= i < |ready| :: ready[i].data as object);
      bytesRead := 0;
      buffer := ready[0];
      workQ := ready[1..];
      freeQ := [];
      tmpQ := [];
      pushCount := 0;
      emptyCount := 0;
      recordCount := 0;
      new;
      assert Live() == ready;
    }

    /** isEOF: reading stops once more bytes than one block have been consumed, and never without a block limit. */
    predicate IsEOF(): (eof: bool)
      reads this
      ensures blockSize == 0 ==> !eof
      ensures eof <==> 0 < blockSize < bytesRead
    {
      blockSize > 0 && bytesRead > blockSize
    }

    /** Skip to just past the first record delimiter outside quotes in the current buffer. */
    method SeekRecord() returns (r: int)
      requires Valid()
      modifies this`bytesRead, buffer`pos
      ensures Valid() && buffer == old(buffer)
      ensures match FindBoundary(false, old(buffer.Unread()), RECORD_END)
              case Some(k) =>
                && r == 0
                && buffer.Unread() == old(buffer.Unread())[k + 1..]
                && bytesRead == old(bytesRead) + k + 1
              case None =>
                r == 1 && buffer.pos == old(buffer.pos) && bytesRead == old(bytesRead)
    {
      var found, _ := Scan(buffer.data, buffer.pos, buffer.end, false, RECORD_END);
      match found {
        case Some(k) =>
          bytesRead := bytesRead + k + 1;
          buffer.pos := buffer.pos + k + 1;
          r := 0;
        case None =>
          r := 1;
      }
    }

    /** The columns of the record at the head of the current buffer; nothing moves. */
    method GetColumnCount() returns (n: nat)
      requires Valid()
      ensures n == ColumnCount(buffer.Unread())
    {
      var data, from, to := buffer.data, buffer.pos, buffer.end;
      ghost var s := buffer.Unread();
      n := 0;
      var i := 0;
      var under := false;
      while from + i < to
        invariant 0 <= i <= to - from
        invariant under == Quoted(false, s[..i])
        invariant n == CountBoundaries(false, s, FIELD_ONLY, i)
        invariant forall j :: 0 <= j < i ==> !Boundary(false, s, j, RECORD_END)
      {
        var c := data[from + i];
        assert s[..i + 1][..i] == s[..i];
        if c == QUOTE {
          under := !under;
        }
        if !under {
          if c == FIELD_DELIM {
            n := n + 1;
          } else if c == RECORD_DELIM {
            n := n + 1;
            assert IsFirstBoundary(false, s, RECORD_END, i);
            FirstBoundaryUnique(false, s, RECORD_END, i, FindBoundary(false, s, RECORD_END).value);
            return;
          }
        }
        i := i + 1;
      }
    }

    method HoldBuffer(b: DikeBuffer)
      modifies this`tmpQ
      ensures tmpQ == old(tmpQ) + [b]
    {
      tmpQ := tmpQ + [b];
    }

    /** getBuffer: the next buffer the worker has filled. */
    method GetBuffer() returns (b: DikeBuffer)
      requires workQ != []
      modifies this`workQ
      ensures b == old(workQ[0]) && workQ == old(workQ[1..])
    {
      b := workQ[0];
      workQ := workQ[1..];
    }

    method PushBuffer(b: DikeBuffer)
      modifies this`freeQ, this`pushCount, this`emptyCount
      ensures freeQ == old(freeQ) + [b]
      ensures pushCount == old(pushCount) + 1
      ensures emptyCount == old(emptyCount) + (if old(freeQ) == [] then 1 else 0)
    {
      pushCount := pushCount + 1;
      if freeQ == [] {
        emptyCount := emptyCount + 1;
      }
      freeQ := freeQ + [b];
    }

    /** Hand every held buffer back for refilling, oldest first. */
    method ReleaseBuffers()
      modifies this`tmpQ, this`freeQ, this`pushCount, this`emptyCount
      ensures tmpQ == [] && freeQ == old(freeQ) + old(tmpQ)
      ensures pushCount == old(pushCount) + old(|tmpQ|)
      ensures emptyCount == old(emptyCount) + (if old(freeQ) == [] && old(tmpQ) != [] then 1 else 0)
    {
      while tmpQ != []
        invariant freeQ + tmpQ == old(freeQ) + old(tmpQ)
        invariant pushCount == old(pushCount) + (old(|tmpQ|) - |tmpQ|)
        invariant emptyCount == old(emptyCount) + (if old(freeQ) == [] && |tmpQ| < old(|tmpQ|) then 1 else 0)
        decreases |tmpQ|
      {
        var b := tmpQ[0];
        tmpQ := tmpQ[1..];
        PushBuffer(b);
      }
    }

    /**
     * Cut field pos out of the stream. A field that ends in the current buffer is left in
     * place with its delimiter overwritten by a NUL; one that runs into the next buffer
     * is copied into its memory slot, and only when it fits there.
     */
    method ReadField(pos: nat) returns (r: int)
      requires Valid() && pos < record.nCol
      requires NoBoundary(false, buffer.Unread(), FIELD_END) ==> workQ != []
      modifies this`buffer, this`bytesRead, this`workQ, this`tmpQ
      modifies buffer`pos, buffer.data, NextReady()`pos, record.fields, record.len, record.memory
      ensures Valid()
      ensures tmpQ + Live() == old(tmpQ + Live())
      ensures || (&& buffer == old(buffer) && workQ == old(workQ) && old(buffer.pos) <= buffer.pos
                  && old(Window()) == old(buffer.Unread()))
              || (&& old(workQ) != [] && buffer == old(workQ[0]) && workQ == old(workQ[1..])
                  && NoBoundary(false, old(buffer.Unread()), FIELD_END)
                  && old(Window()) == old(buffer.Unread()) + old(workQ[0].Unread()))
      ensures forall t :: 0 <= t < old(buffer.pos) ==> old(buffer).data[t] == old(buffer.data[t])
      ensures forall t :: 0 <= t < |workQ| ==> unchanged(workQ[t], workQ[t].data)
      ensures r == 0 || r == 1
      ensures forall i :: 0 <= i < MAX_COLUMNS && i != pos ==>
                record.fields[i] == old(record.fields[i]) && record.len[i] == old(record.len[i])
      ensures forall i, j :: 0 <= i < MAX_COLUMNS && i != pos && 0 <= j < FIELD_SIZE ==>
                record.memory[i, j] == old(record.memory[i, j])
      ensures r == 0 ==>
                && FieldCut(pos, old(Window()), record.len[pos])
                && bytesRead == old(bytesRead) + record.len[pos]
      ensures r == 0 && buffer == old(buffer) ==> record.fields[pos] == InBuffer(buffer.data, old(buffer.pos))
      ensures buffer != old(buffer) ==> record.fields[pos] == InMemory(pos)
      ensures r == 0 && buffer != old(buffer) ==> record.len[pos] <= FIELD_SIZE
      ensures r == 1 ==>
                && NoBoundary(false, old(buffer.Unread()), FIELD_END)
                && Unfit(old(Window()))
                && buffer == old(workQ[0]) && workQ == old(workQ[1..])
                && buffer.Unread() == old(workQ[0].Unread())
                && bytesRead == old(bytesRead)
                && unchanged(record.memory)
    {
      ghost var window := Window();
      var found, under := Scan(buffer.data, buffer.pos, buffer.end, false, FIELD_END);
      if found.Some? {
        assert window == buffer.Unread();
        CutInPlace(pos, found.value);
        return 0;
      }
      assert window == buffer.Unread() + workQ[0].Unread();
      r := ReadStraddled(pos, under, buffer.Unread(), workQ[0].Unread());
    }

    /** The in-place path of readField: field pos ends at byte k of the current buffer. */
    method CutInPlace(pos: nat, k: nat)
      requires Valid() && pos < record.nCol
      requires FindBoundary(false, buffer.Unread(), FIELD_END) == Some(k)
      modifies this`bytesRead, buffer`pos, buffer.data, record.fields, record.len
      ensures Valid()
      ensures forall i :: 0 <= i < MAX_COLUMNS && i != pos ==>
                record.fields[i] == old(record.fields[i]) && record.len[i] == old(record.len[i])
      ensures record.len[pos] == k + 1 && FieldCut(pos, old(buffer.Unread()), k + 1)
      ensures record.fields[pos] == InBuffer(buffer.data, old(buffer.pos)) && buffer.data[old(buffer.pos) + k] == 0
      ensures bytesRead == old(bytesRead) + k + 1
      ensures buffer.pos == old(buffer.pos) + k + 1
      ensures forall t :: 0 <= t < buffer.data.Length && t != old(buffer.pos) + k ==>
                buffer.data[t] == old(buffer.data[t])
    {
      ghost var tail := buffer.Unread();
      var start := buffer.pos;
      assert forall j :: 0 <= j < k ==> buffer.data[start + j] == tail[j];
      record.fields[pos] := InBuffer(buffer.data, start);
      record.len[pos] := k + 1;
      buffer.data[start + k] := 0;
      assert forall j :: 0 <= j < k ==> buffer.data[start + j] == tail[j];
      assert buffer.data[start..start + k] == tail[..k];
      bytesRead := bytesRead + k + 1;
      buffer.pos := start + k + 1;
    }

    /** The straddle path of readField: field pos now points at its memory slot. */
    method ReadStraddled(pos: nat, under: bool, ghost tail: seq<bv8>, ghost head: seq<bv8>) returns (r: int)
      requires Valid() && pos < record.nCol && workQ != []
      requires NoBoundary(false, buffer.Unread(), FIELD_END)
      requires tail == buffer.Unread() && head == workQ[0].Unread()
      requires under == Quoted(false, tail)
      modifies this`buffer, this`bytesRead, this`workQ, this`tmpQ
      modifies workQ[..1]`pos, record.fields, record.len, record.memory
      ensures Valid()
      ensures record.fields[pos] == InMemory(pos) && buffer != old(buffer)
      ensures forall i :: 0 <= i < MAX_COLUMNS && i != pos ==> record.fields[i] == old(record.fields[i])
      ensures tmpQ + Live() == old(tmpQ + Live())
      ensures tmpQ == old(tmpQ) + [old(buffer)] && buffer == old(workQ[0]) && workQ == old(workQ[1..])
      ensures forall t :: 0 <= t < |workQ| ==> unchanged(workQ[t], workQ[t].data)
      ensures r == 0 || r == 1
      ensures forall i :: 0 <= i < MAX_COLUMNS && i != pos ==> record.len[i] == old(record.len[i])
      ensures forall i, j :: 0 <= i < MAX_COLUMNS && i != pos && 0 <= j < FIELD_SIZE ==>
                record.memory[i, j] == old(record.memory[i, j])
      ensures r == 0 ==>
                && FieldCut(pos, tail + head, record.len[pos])
                && record.len[pos] <= FIELD_SIZE
                && bytesRead == old(bytesRead) + record.len[pos]
      ensures r == 1 ==>
                && Unfit(tail + head)
                && buffer.Unread() == head
                && bytesRead == old(bytesRead)
                && unchanged(record.memory)
    {
      record.fields[pos] := InMemory(pos);
      r := FillFromNext(pos, under, tail, head);
    }

    /**
     * The rest of the straddle path, field pos pointing at its slot: hold the current
     * buffer, take the next one, and cut the field from the tail of the one and the head
     * of the other, when it ends there and fits.
     */
    method FillFromNext(pos: nat, under: bool, ghost tail: seq<bv8>, ghost head: seq<bv8>) returns (r: int)
      requires Valid() && pos < record.nCol && workQ != []
      requires NoBoundary(false, buffer.Unread(), FIELD_END)
      requires tail == buffer.Unread() && head == workQ[0].Unread()
      requires under == Quoted(false, tail)
      requires record.fields[pos] == InMemory(pos)
      modifies this`buffer, this`bytesRead, this`workQ, this`tmpQ
      modifies workQ[..1]`pos, record.len, record.memory
      ensures Valid()
      ensures tmpQ + Live() == old(tmpQ + Live())
      ensures tmpQ == old(tmpQ) + [old(buffer)] && buffer == old(workQ[0]) && workQ == old(workQ[1..])
      ensures forall t :: 0 <= t < |workQ| ==> unchanged(workQ[t], workQ[t].data)
      ensures r == 0 || r == 1
      ensures forall i :: 0 <= i < MAX_COLUMNS && i != pos ==> record.len[i] == old(record.len[i])
      ensures forall i, j :: 0 <= i < MAX_COLUMNS && i != pos && 0 <= j < FIELD_SIZE ==>
                record.memory[i, j] == old(record.memory[i, j])
      ensures r == 0 ==>
                && FieldCut(pos, tail + head, record.len[pos])
                && record.len[pos] <= FIELD_SIZE
                && bytesRead == old(bytesRead) + record.len[pos]
      ensures r == 1 ==>
                && Unfit(tail + head)
                && buffer.Unread() == head
                && bytesRead == old(bytesRead)
                && unchanged(record.memory)
    {
      var held := NextBuffer();
      assert tmpQ + Live() == old(tmpQ + Live());
      var found, _ := Scan(buffer.data, buffer.pos, buffer.end, under, FIELD_END);
      FindAcrossBuffers(false, tail, head, FIELD_END);
      match found {
        case None =>
          return 1;
        case Some(k) =>
          r := CopyStraddled(pos, held, k, tail, head);
      }
    }

    /**
     * The straddle path once the field is known to end at byte k of the current buffer:
     * copy it into slot pos when it fits, otherwise fail with the slot untouched.
     */
    method CopyStraddled(pos: nat, held: DikeBuffer, k: nat, ghost tail: seq<bv8>, ghost head: seq<bv8>)
      returns (r: int)
      requires Valid() && pos < record.nCol
      requires held.Valid() && held.data in Repr && held.data != buffer.data
      requires tail == held.Unread() && head == buffer.Unread() && k < |head|
      requires FindBoundary(false, tail + head, FIELD_END) == Some(|tail| + k)
      requires record.fields[pos] == InMemory(pos)
      modifies this`bytesRead, buffer`pos, record.memory, record.len
      ensures Valid()
      ensures forall i :: 0 <= i < MAX_COLUMNS && i != pos ==> record.len[i] == old(record.len[i])
      ensures forall i, j :: 0 <= i < MAX_COLUMNS && i != pos && 0 <= j < FIELD_SIZE ==>
                record.memory[i, j] == old(record.memory[i, j])
      ensures r == 0 || r == 1
      ensures r == 0 ==>
                && |tail| + k + 1 <= FIELD_SIZE
                && record.len[pos] == |tail| + k + 1
                && Holds(InMemory(pos), pos, tail + head[..k])
                && buffer.Unread() == head[k + 1..]
                && bytesRead == old(bytesRead) + |tail| + k + 1
                && FieldCut(pos, tail + head, record.len[pos])
      ensures r == 1 ==>
                && |tail| + k + 1 > FIELD_SIZE
                && Unfit(tail + head)
                && bytesRead == old(bytesRead) && buffer.pos == old(buffer.pos)
                && unchanged(record.memory)
    {
      var count := held.end - held.pos;
      if count + k + 1 > FIELD_SIZE {
        return 1;
      }
      FillSlot(pos, held, k, tail, head);
      Consume(k, count + k + 1);
      CutAcross(tail, head, k);
      r := 0;
    }

    /** Hold the current buffer, which the current record still points into, and move on. */
    method NextBuffer() returns (held: DikeBuffer)
      requires Valid() && workQ != []
      modifies this`buffer, this`workQ, this`tmpQ
      ensures Valid()
      ensures held == old(buffer) && tmpQ == old(tmpQ) + [held]
      ensures buffer == old(workQ[0]) && workQ == old(workQ[1..])
      ensures held.Valid() && held.data in Repr && held != buffer && held.data != buffer.data
    {
      held := buffer;
      HoldBuffer(buffer);
      buffer := GetBuffer();
      assert buffer == old(workQ[0]);
    }

    /**
     * The copy of the straddle path: the held tail, then the current buffer up to the
     * delimiter at byte k, go into slot pos with a NUL in place of the delimiter.
     */
    method FillSlot(pos: nat, held: DikeBuffer, k: nat, ghost tail: seq<bv8>, ghost head: seq<bv8>)
      requires record.Valid() && pos < record.nCol
      requires held.Valid() && buffer.Valid()
      requires held.data as object != record.memory && buffer.data as object != record.memory
      requires held.data as object != record.len && buffer.data as object != record.len
      requires tail == held.Unread() && head == buffer.Unread()
      requires k < |head| && |tail| + k + 1 <= FIELD_SIZE
      modifies record.memory, record.len
      ensures forall i :: 0 <= i < MAX_COLUMNS && i != pos ==> record.len[i] == old(record.len[i])
      ensures forall i, j :: 0 <= i < MAX_COLUMNS && i != pos && 0 <= j < FIELD_SIZE ==>
                record.memory[i, j] == old(record.memory[i, j])
      ensures record.len[pos] == |tail| + k + 1
      ensures Holds(InMemory(pos), pos, tail + head[..k])
    {
      var count := held.end - held.pos;
      CopyIntoSlot(record.memory, pos, 0, held.data, held.pos, count);
      assert forall j :: 0 <= j < count ==> record.memory[pos, j] == tail[j];
      CopyIntoSlot(record.memory, pos, count, buffer.data, buffer.pos, k);
      assert forall j :: 0 <= j < count ==> record.memory[pos, j] == tail[j];
      assert forall j :: count <= j < count + k ==> record.memory[pos, j] == head[j - count];
      record.memory[pos, count + k] := 0;
      record.len[pos] := count + k + 1;
      ghost var text := tail + head[..k];
      assert forall j :: 0 <= j < count + k ==> record.memory[pos, j] == text[j];
    }

    /** Move past byte k of the current buffer, counting n bytes as read. */
    method Consume(k: nat, n: nat)
      requires Valid() && k < |buffer.Unread()|
      modifies this`bytesRead, buffer`pos
      ensures Valid()
      ensures buffer.Unread() == old(buffer.Unread())[k + 1..]
      ensures bytesRead == old(bytesRead) + n
    {
      bytesRead := bytesRead + n;
      buffer.pos := buffer.pos + k + 1;
    }

    /**
     * The first |texts| fields of the record are read: texts are the cuts of the stream s,
     * what is left of s is the rest of the current buffer followed by the ready buffers
     * queue, and each field holds its text.
     */
    ghost predicate Progress(texts: seq<seq<bv8>>, queue: seq<seq<bv8>>)
      requires Valid()
      reads this, Repr, record.fields, record.len, record.memory
    {
      && |texts| <= record.nCol
      && Mirrors(queue)
      && forall j :: 0 <= j < |texts| ==> Settled(j, texts[j])
    }

    /**
     * Fields already read keep their texts while the reader moves on: readField writes
     * only at or after the parse position of the current buffer, and into other slots.
     */
    twostate lemma StaysSettled(texts: seq<seq<bv8>>)
      requires old(Valid()) && Valid() && |texts| <= MAX_COLUMNS
      requires forall j :: 0 <= j < |texts| ==> old(Settled(j, texts[j]))
      requires forall j :: 0 <= j < |texts| ==>
                 record.fields[j] == old(record.fields[j]) && record.len[j] == old(record.len[j])
      requires forall j, c :: 0 <= j < |texts| && 0 <= c < FIELD_SIZE ==>
                 record.memory[j, c] == old(record.memory[j, c])
      requires forall t :: 0 <= t < old(buffer.pos) ==> old(buffer).data[t] == old(buffer.data[t])
      requires forall j :: 0 <= j < |texts| && record.fields[j].InBuffer? && record.fields[j].data != old(buffer.data) ==>
                 unchanged(record.fields[j].data)
      requires || (buffer == old(buffer) && workQ == old(workQ) && old(buffer.pos) <= buffer.pos)
               || (old(workQ) != [] && buffer == old(workQ[0]) && workQ == old(workQ[1..]))
      ensures forall j :: 0 <= j < |texts| ==> Settled(j, texts[j])
    {
      forall j | 0 <= j < |texts|
        ensures Settled(j, texts[j])
      {
        var text := texts[j];
        match record.fields[j] {
          case InMemory(_) =>
          case InBuffer(d, at) =>
            if d == old(buffer.data) {
              assert forall c :: at <= c <= at + |text| ==> d[c] == old(d[c]);
              assert d[at..at + |text|] == old(d[at..at + |text|]);
            }
            assert old(workQ) != [] ==> d != old(workQ[0].data);
        }
      }
    }

    /** The ready buffers still hold what they held, less the one the reader moved into. */
    twostate lemma StaysMirrored(queue: seq<seq<bv8>>)
      requires old(Valid()) && Valid() && old(Mirrors(queue))
      requires workQ == old(workQ) || (old(workQ) != [] && workQ == old(workQ[1..]))
      requires forall t :: 0 <= t < |workQ| ==> unchanged(workQ[t], workQ[t].data)
      ensures Mirrors(if workQ == old(workQ) then queue else queue[1..])
    {
      var rest := if workQ == old(workQ) then queue else queue[1..];
      forall t | 0 <= t < |workQ|
        ensures workQ[t].Unread() == rest[t]
      {
        var b := workQ[t];
        assert b.data[b.pos..b.end] == old(b.data[b.pos..b.end]);
      }
    }

    /**
     * The state between two turns of readRecord's loop: texts are the first i fields cut from
     * the stream s, u is what is left of the current buffer and rest of the ready ones, and
     * the remaining fields can be read without waiting for a buffer.
     */
    ghost predicate Turns(i: nat, texts: seq<seq<bv8>>, s: seq<bv8>, rest: seq<seq<bv8>>, u: seq<bv8>)
      requires Valid()
      reads this, Repr, record.fields, record.len, record.memory
    {
      && i == |texts| <= record.nCol
      && Progress(texts, rest) && buffer.Unread() == u && Ready(record.nCol - i, u, rest)
      && Cuts(texts, s) && After(texts, s) == u + Flatten(rest)
    }

    /**
     * Read field i, the next one of the record. On success the field extends the cuts;
     * on failure cut is the rest of the buffer the field began in.
     */
    method ReadColumn(i: nat, ghost texts: seq<seq<bv8>>, ghost s: seq<bv8>, ghost queue: seq<seq<bv8>>,
                      ghost u: seq<bv8>)
      returns (r: int, ghost cut: seq<bv8>, ghost rest: seq<seq<bv8>>, ghost next: seq<bv8>)
      requires Valid() && i < record.nCol && Turns(i, texts, s, queue, u)
      modifies this`buffer, this`bytesRead, this`workQ, this`tmpQ
      modifies buffer`pos, buffer.data, NextReady()`pos, record.fields, record.len, record.memory
      ensures Valid() && (r == 0 || r == 1) && buffer.Unread() == next
      ensures tmpQ + Live() == old(tmpQ + Live())
      ensures forall j :: 0 <= j < MAX_COLUMNS && j != i ==> record.len[j] == old(record.len[j])
      ensures r == 0 ==>
                && Turns(i + 1, texts + [cut], s, rest, next)
                && bytesRead == old(bytesRead) + |cut| + 1
      ensures r == 1 ==>
                && Mirrors(rest)
                && (forall j :: 0 <= j < i ==> Settled(j, texts[j]))
                && After(texts, s) == cut + next + Flatten(rest)
                && NoBoundary(false, cut, FIELD_END)
                && Unfit(cut + next)
                && bytesRead == old(bytesRead)
    {
      ghost var left := record.nCol - i;
      ghost var held := tmpQ + Live();
      assert Progress(texts, queue) && Ready(left, u, queue);
      assert Cuts(texts, s) && After(texts, s) == u + Flatten(queue);
      ghost var w := Window();
      ghost var head := if workQ == [] then [] else workQ[0].Unread();
      assert workQ != [] ==> queue[0] == head;
      assert NoBoundary(false, u, FIELD_END) ==> workQ != [] by {
        if NoBoundary(false, u, FIELD_END) {
          assert FindBoundary(false, u, FIELD_END).None?;
        }
      }
      r := ReadField(i);
      assert tmpQ + Live() == held;
      forall j | 0 <= j < i && record.fields[j].InBuffer? && record.fields[j].data != old(buffer.data)
        ensures unchanged(record.fields[j].data)
      {
        assert old(Settled(j, texts[j]));
      }
      StaysSettled(texts);
      StaysMirrored(queue);
      rest := if workQ == old(workQ) then queue else queue[1..];
      next := buffer.Unread();
      if r == 0 {
        ghost var n := record.len[i];
        cut := w[..n - 1];
        ColumnRead(texts, rest, w, n);
        ghost var moved := workQ != old(workQ);
        assert moved == (buffer != old(buffer));
        assert !moved ==> w == u && rest == queue;
        assert moved ==> && queue != [] && w == u + queue[0] && rest == queue[1..]
                         && NoBoundary(false, u, FIELD_END) && n <= FIELD_SIZE;
        Advance(texts, s, queue, rest, u, w, n, left, moved);
        assert next == w[n..];
        assert Ready(record.nCol - (i + 1), next, rest);
      } else {
        cut := u;
        MoveOn(u, queue);
      }
    }

    /** Field |texts| was cut from the window w as its first n - 1 bytes and settled. */
    lemma ColumnRead(texts: seq<seq<bv8>>, rest: seq<seq<bv8>>, w: seq<bv8>, n: int)
      requires Valid() && |texts| < record.nCol
      requires Mirrors(rest) && forall j :: 0 <= j < |texts| ==> Settled(j, texts[j])
      requires FieldCut(|texts|, w, n)
      ensures 1 <= n <= |w| && FindBoundary(false, w, FIELD_END) == Some(n - 1)
      ensures Progress(texts + [w[..n - 1]], rest) && buffer.Unread() == w[n..]
    {
      assert Settled(|texts|, w[..n - 1]);
      ProgressGrows(texts, w[..n - 1], rest);
    }

    /** Progress by one more settled field. */
    lemma ProgressGrows(texts: seq<seq<bv8>>, text: seq<bv8>, rest: seq<seq<bv8>>)
      requires Valid() && |texts| < record.nCol
      requires Mirrors(rest)
      requires forall j :: 0 <= j < |texts| ==> Settled(j, texts[j])
      requires Settled(|texts|, text)
      ensures Progress(texts + [text], rest)
    {
      forall j | 0 <= j < |texts| + 1
        ensures Settled(j, (texts + [text])[j])
      {
        if j < |texts| {
          assert (texts + [text])[j] == texts[j];
        }
      }
    }

    /**
     * Parse one record of record.nCol fields from the current buffer and the ready buffers
     * queue. Held buffers are released first; the reader stops at the first field it
     * cannot read. unread is what is then left of the current buffer.
     */
    method ReadRecord(ghost queue: seq<seq<bv8>>)
      returns (r: int, ghost texts: seq<seq<bv8>>, ghost tail: seq<bv8>, ghost rest: seq<seq<bv8>>,
               ghost unread: seq<bv8>)
      requires Valid() && Mirrors(queue)
      requires !IsEOF() ==> Ready(record.nCol, buffer.Unread(), queue)
      modifies this`buffer, this`bytesRead, this`workQ, this`tmpQ
      modifies this`freeQ, this`pushCount, this`emptyCount, this`recordCount
      modifies Repr, record.fields, record.len, record.memory
      ensures Valid()
      ensures r == 0 || r == 1
      ensures old(IsEOF()) ==>
                && r == 1
                && unchanged(this)
                && unchanged(Repr)
                && unchanged(record.fields, record.len, record.memory)
      ensures !old(IsEOF()) ==>
                && recordCount == old(recordCount) + 1
                && freeQ == old(freeQ) + old(tmpQ)
                && pushCount == old(pushCount) + old(|tmpQ|)
                && emptyCount == old(emptyCount) + (if old(freeQ) == [] && old(tmpQ) != [] then 1 else 0)
                && tmpQ + Live() == old(Live())
      ensures !old(IsEOF()) ==>
                && |texts| <= record.nCol
                && Cuts(texts, old(buffer.Unread()) + Flatten(queue))
                && Mirrors(rest) && buffer.Unread() == unread
                && (forall j :: 0 <= j < |texts| ==>
                      record.len[j] == |texts[j]| + 1 && Holds(record.fields[j], j, texts[j]))
                && bytesRead == old(bytesRead) + Consumed(texts)
      ensures !old(IsEOF()) && r == 0 ==>
                && |texts| == record.nCol
                && After(texts, old(buffer.Unread()) + Flatten(queue)) == unread + Flatten(rest)
      ensures !old(IsEOF()) && r == 1 ==>
                && |texts| < record.nCol
                && After(texts, old(buffer.Unread()) + Flatten(queue)) == tail + unread + Flatten(rest)
                && NoBoundary(false, tail, FIELD_END)
                && Unfit(tail + unread)
    {
      if IsEOF() {
        texts, tail, rest, unread := [], [], queue, buffer.Unread();
        r := 1;
        return;
      }
      ghost var s := buffer.Unread() + Flatten(queue);
      ReleaseBuffers();
      recordCount := recordCount + 1;
      r, texts, tail, rest, unread := ReadFields(queue, s);
    }

    /** The loop of readRecord: fields 0 .. record.nCol - 1 in turn, up to the first that fails. */
    method ReadFields(ghost queue: seq<seq<bv8>>, ghost s: seq<bv8>)
      returns (r: int, ghost texts: seq<seq<bv8>>, ghost tail: seq<bv8>, ghost rest: seq<seq<bv8>>,
               ghost unread: seq<bv8>)
      requires Valid() && Mirrors(queue) && s == buffer.Unread() + Flatten(queue)
      requires Ready(record.nCol, buffer.Unread(), queue)
      modifies this`buffer, this`bytesRead, this`workQ, this`tmpQ
      modifies Repr, record.fields, record.len, record.memory
      ensures Valid()
      ensures tmpQ + Live() == old(tmpQ + Live())
      ensures r == 0 || r == 1
      ensures |texts| <= record.nCol && Cuts(texts, s)
      ensures Mirrors(rest) && buffer.Unread() == unread
      ensures forall j :: 0 <= j < |texts| ==>
                record.len[j] == |texts[j]| + 1 && Holds(record.fields[j], j, texts[j])
      ensures bytesRead == old(bytesRead) + Consumed(texts)
      ensures r == 0 ==> |texts| == record.nCol && After(texts, s) == unread + Flatten(rest)
      ensures r == 1 ==>
                && |texts| < record.nCol
                && After(texts, s) == tail + unread + Flatten(rest)
                && NoBoundary(false, tail, FIELD_END)
                && Unfit(tail + unread)
    {
      r, texts, tail, rest, unread := ScanColumns(queue, s);
      SettledHold(texts);
    }

    /** The fields readFields reads, each kept settled in its slot as the loop goes on. */
    method ScanColumns(ghost queue: seq<seq<bv8>>, ghost s: seq<bv8>)
      returns (r: int, ghost texts: seq<seq<bv8>>, ghost tail: seq<bv8>, ghost rest: seq<seq<bv8>>,
               ghost unread: seq<bv8>)
      requires Valid() && Mirrors(queue) && s == buffer.Unread() + Flatten(queue)
      requires Ready(record.nCol, buffer.Unread(), queue)
      modifies this`buffer, this`bytesRead, this`workQ, this`tmpQ
      modifies Repr, record.fields, record.len, record.memory
      ensures Valid()
      ensures tmpQ + Live() == old(tmpQ + Live())
      ensures r == 0 || r == 1
      ensures |texts| <= record.nCol && Cuts(texts, s)
      ensures Mirrors(rest) && buffer.Unread() == unread
      ensures forall j :: 0 <= j < |texts| ==> Settled(j, texts[j])
      ensures bytesRead == old(bytesRead) + Consumed(texts)
      ensures r == 0 ==> |texts| == record.nCol && After(texts, s) == unread + Flatten(rest)
      ensures r == 1 ==>
                && |texts| < record.nCol
                && After(texts, s) == tail + unread + Flatten(rest)
                && NoBoundary(false, tail, FIELD_END)
                && Unfit(tail + unread)
    {
      texts, tail, rest, unread := [], [], queue, buffer.Unread();
      assert Progress(texts, rest);
      r := 0;
      var i := 0;
      while i < record.nCol
        invariant Valid() && Turns(i, texts, s, rest, unread)
        invariant bytesRead == old(bytesRead) + Consumed(texts)
        invariant tmpQ + Live() == old(tmpQ + Live())
      {
        ghost var cut, after, next;
        r, cut, after, next := ReadColumn(i, texts, s, rest, unread);
        if r != 0 {
          tail, rest, unread := cut, after, next;
          r := 1;
          break;
        }
        ConsumedSnoc(texts, cut);
        texts, rest, unread := texts + [cut], after, next;
        i := i + 1;
      }
    }

    /** Read fields hold their texts, with lengths counting the delimiter. */
    lemma SettledHold(texts: seq<seq<bv8>>)
      requires Valid() && |texts| <= record.nCol
      requires forall j :: 0 <= j < |texts| ==> Settled(j, texts[j])
      ensures forall j :: 0 <= j < |texts| ==>
                record.len[j] == |texts[j]| + 1 && Holds(record.fields[j], j, texts[j])
    {
    }
  }
}
