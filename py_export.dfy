/**
 * The loop of `utmp_to_csv` (uwbdump.py:94-117): one zero-initialised
 * `UtmpLoginRecords` buffer is refilled in place by `readinto` until it
 * reports 0 bytes, and each fill is written as one row. There is no size
 * check, a short last read leaves the previous record's bytes in the rest
 * of the buffer, and an unknown type code ends the export with a KeyError
 * after the earlier rows have been written.
 */
module PyExport {
  import opened Wrappers
  import opened Bytes
  import opened PyLayout
  import CppExport

  /** The rows written and, when the export stopped early, the error that stopped it. */
  datatype Export = Export(rows: seq<seq<Cell>>, failure: Option<KeyError>)

  function Min(a: int, b: int): int { if a < b then a else b }

  /** The buffer after `readinto` at `pos`: the next bytes of the file over the front of the old buffer. */
  function Refill(buffer: seq<uint8>, file: seq<uint8>, pos: nat): (b: seq<uint8>)
    requires pos <= |file|
    ensures |b| == |buffer|
  {
    var n := Min(|buffer|, |file| - pos);
    file[pos..pos + n] + buffer[n..]
  }

  /** What the loop writes from position `pos` on, with `buffer` holding the last fill. */
  function ExportFrom(file: seq<uint8>, pos: nat, buffer: seq<uint8>): (e: Export)
    requires pos <= |file| && |buffer| == RecordSize
    decreases |file| - pos
  {
    if pos == |file| then Export([], None)
    else
      var n := Min(RecordSize, |file| - pos);
      var filled := Refill(buffer, file, pos);
      match Row(Decode(filled))
      case Failure(e) => Export([], Some(e))
      case Success(row) =>
        var rest := ExportFrom(file, pos + n, filled);
        Export([row] + rest.rows, rest.failure)
  }

  /**
   * What `utmp_to_csv` writes for a file after the header row, starting from
   * the zero-initialised buffer `UtmpLoginRecords()` creates.
   */
  function ExportFile(file: seq<uint8>): Export
  {
    ExportFrom(file, 0, Zeros(RecordSize))
  }

  /**
   * `f.readinto(record)`: copies the next bytes of the file, as many as fit
   * and remain, over the front of the buffer and reports how many it copied.
   */
  method ReadInto(record: array<uint8>, file: seq<uint8>, pos: nat) returns (n: nat)
    requires pos <= |file|
    modifies record
    ensures n == Min(record.Length, |file| - pos)
    ensures record[..] == Refill(old(record[..]), file, pos)
  {
    n := Min(record.Length, |file| - pos);
    for i := 0 to n
      invariant forall k :: 0 <= k < i ==> record[k] == file[pos + k]
      invariant forall k :: i <= k < record.Length ==> record[k] == old(record[k])
    {
      record[i] := file[pos + i];
    }
    assert record[..] == file[pos..pos + n] + old(record[..])[n..];
  }

  /** Rows written before an export go in front of its rows. */
  function Prepend(rows: seq<seq<Cell>>, e: Export): Export
  {
    Export(rows + e.rows, e.failure)
  }

  lemma PrependTwice(a: seq<seq<Cell>>, b: seq<seq<Cell>>, e: Export)
    ensures Prepend(a, Prepend(b, e)) == Prepend(a + b, e)
  {
    assert a + (b + e.rows) == (a + b) + e.rows;
  }

  /** How one row's outcome combines with what the rest of the export writes. */
  function Continue(row: Result<seq<Cell>, KeyError>, rest: Export): Export
  {
    match row
    case Failure(e) => Export([], Some(e))
    case Success(r) => Prepend([r], rest)
  }

  /** One turn of the loop, as ExportFrom takes it. */
  lemma ExportStep(file: seq<uint8>, pos: nat, buffer: seq<uint8>)
    requires pos < |file| && |buffer| == RecordSize
    ensures var filled := Refill(buffer, file, pos);
      ExportFrom(file, pos, buffer) ==
        Continue(Row(Decode(filled)), ExportFrom(file, pos + Min(RecordSize, |file| - pos), filled))
  {
  }

  /** One turn of the loop, seen from the rows already written. */
  lemma ExportTurn(rows: seq<seq<Cell>>, file: seq<uint8>, pos: nat, buffer: seq<uint8>)
    requires pos < |file| && |buffer| == RecordSize
    ensures var filled := Refill(buffer, file, pos);
      match Row(Decode(filled))
      case Failure(e) => Prepend(rows, ExportFrom(file, pos, buffer)) == Export(rows, Some(e))
      case Success(row) =>
        Prepend(rows, ExportFrom(file, pos, buffer)) ==
          Prepend(rows + [row], ExportFrom(file, pos + Min(RecordSize, |file| - pos), filled))
  {
    var filled := Refill(buffer, file, pos);
    ExportStep(file, pos, buffer);
    if Row(Decode(filled)).Success? {
      PrependTwice(rows, [Row(Decode(filled)).value],
        ExportFrom(file, pos + Min(RecordSize, |file| - pos), filled));
    }
  }

  /**
   * The export: the header row, then rows appended as records are read; the
   * KeyError of an unknown type code leaves the rows written so far.
   */
  method UtmpToCsv(file: seq<uint8>) returns (rows: seq<seq<Cell>>, failure: Option<KeyError>)
    ensures rows == [HeaderRow] + ExportFile(file).rows && failure == ExportFile(file).failure
  {
    var record := new uint8[RecordSize](_ => 0);
    assert record[..] == Zeros(RecordSize);
    var written := [];
    var pos := 0;
    failure := None;
    while true
      invariant pos <= |file| && record.Length == RecordSize && failure == None
      invariant ExportFile(file) == Prepend(written, ExportFrom(file, pos, record[..]))
      decreases |file| - pos
    {
      ghost var before := record[..];
      var buf := ReadInto(record, file, pos);
      if buf == 0 {
        break;
      }
      ExportTurn(written, file, pos, before);
      var row := Row(Decode(record[..]));
      if row.Failure? {
        failure := Some(row.error);
        break;
      }
      written := written + [row.value];
      pos := pos + buf;
    }
    assert ExportFile(file) == Export(written, failure);
    rows := [HeaderRow] + written;
  }

  // ---------------------------------------------------------------------
  // Properties of the export
  // ---------------------------------------------------------------------

  /** The file cut into whole records, front to back; a short tail is not a record. */
  function Records(file: seq<uint8>): (chunks: seq<seq<uint8>>)
    ensures forall k :: 0 <= k < |chunks| ==> |chunks[k]| == RecordSize
    decreases |file|
  {
    if |file| < RecordSize then [] else [file[..RecordSize]] + Records(file[RecordSize..])
  }

  /**
   * Reference export of a list of row outcomes, with no buffer: one row per
   * outcome in order, stopping at the first KeyError.
   */
  function Collect(outcomes: seq<Result<seq<Cell>, KeyError>>): (e: Export)
    ensures |e.rows| <= |outcomes|
  {
    if outcomes == [] then Export([], None) else Continue(outcomes[0], Collect(outcomes[1..]))
  }

  /** Row `k` is outcome `k`; the export stops only at a KeyError, and then carries it. */
  lemma {:induction false} CollectOutcomes(outcomes: seq<Result<seq<Cell>, KeyError>>)
    ensures var e := Collect(outcomes);
      (forall k :: 0 <= k < |e.rows| ==> outcomes[k] == Success(e.rows[k])) &&
      (e.failure.None? <==> |e.rows| == |outcomes|) &&
      (e.failure.Some? ==> outcomes[|e.rows|] == Failure(e.failure.value))
  {
    if outcomes != [] && outcomes[0].Success? {
      var rest := Collect(outcomes[1..]);
      CollectOutcomes(outcomes[1..]);
      assert Collect(outcomes).rows == [outcomes[0].value] + rest.rows;
    }
  }

  /** The reference export of a list of records: the row of each record, in order. */
  function RowsOf(chunks: seq<seq<uint8>>): Export
    requires forall k :: 0 <= k < |chunks| ==> |chunks[k]| == RecordSize
  {
    Collect(seq(|chunks|, k requires 0 <= k < |chunks| => Row(Decode(chunks[k]))))
  }

  lemma RowsOfStep(chunks: seq<seq<uint8>>)
    requires chunks != [] && forall k :: 0 <= k < |chunks| ==> |chunks[k]| == RecordSize
    ensures RowsOf(chunks) == Continue(Row(Decode(chunks[0])), RowsOf(chunks[1..]))
  {
    var outcomes := seq(|chunks|, k requires 0 <= k < |chunks| => Row(Decode(chunks[k])));
    assert outcomes[1..] == seq(|chunks| - 1, k requires 0 <= k < |chunks| - 1 => Row(Decode(chunks[1..][k])));
  }

  /**
   * The reference export, record by record: the k-th row is the row of the
   * k-th record, it stops only at a record whose row fails, and it then
   * carries that record's KeyError.
   */
  lemma RowsOfRecords(chunks: seq<seq<uint8>>)
    requires forall k :: 0 <= k < |chunks| ==> |chunks[k]| == RecordSize
    ensures var e := RowsOf(chunks);
      |e.rows| <= |chunks| &&
      (forall k :: 0 <= k < |e.rows| ==> Row(Decode(chunks[k])) == Success(e.rows[k])) &&
      (e.failure.None? <==> |e.rows| == |chunks|) &&
      (e.failure.Some? ==> Row(Decode(chunks[|e.rows|])) == Failure(e.failure.value))
  {
    CollectOutcomes(seq(|chunks|, k requires 0 <= k < |chunks| => Row(Decode(chunks[k]))));
  }

  /** An empty file gives no rows and no error. */
  lemma EmptyFileExport()
    ensures ExportFile([]) == Export([], None)
  {
  }

  /** With whole records left at `pos`, `readinto` fills the whole buffer with the next record. */
  lemma RefillWhole(file: seq<uint8>, pos: nat, buffer: seq<uint8>)
    requires pos < |file| && (|file| - pos) % RecordSize == 0 && |buffer| == RecordSize
    ensures Min(RecordSize, |file| - pos) == RecordSize
    ensures (|file| - (pos + RecordSize)) % RecordSize == 0
    ensures var chunks := Records(file[pos..]);
      chunks != [] && Refill(buffer, file, pos) == chunks[0] &&
      chunks[1..] == Records(file[pos + RecordSize..])
  {
    assert |file| - pos >= RecordSize;
    assert file[pos..][RecordSize..] == file[pos + RecordSize..];
  }

  /** From `pos` on, with whole records left, the buffer's old bytes never show. */
  lemma {:induction false} WholeRecordsFrom(file: seq<uint8>, pos: nat, buffer: seq<uint8>)
    requires pos <= |file| && (|file| - pos) % RecordSize == 0 && |buffer| == RecordSize
    ensures ExportFrom(file, pos, buffer) == RowsOf(Records(file[pos..]))
    decreases |file| - pos
  {
    if pos < |file| {
      RefillWhole(file, pos, buffer);
      ExportStep(file, pos, buffer);
      RowsOfStep(Records(file[pos..]));
      WholeRecordsFrom(file, pos + RecordSize, Refill(buffer, file, pos));
    }
  }

  /** A file of whole records exports as the reference export of its records. */
  lemma WholeRecords(file: seq<uint8>)
    requires |file| % RecordSize == 0
    ensures ExportFile(file) == RowsOf(Records(file))
  {
    WholeRecordsFrom(file, 0, Zeros(RecordSize));
    assert file[0..] == file;
  }

  /**
   * A record followed by a short tail: the second `readinto` fills only the
   * front of the buffer, and the second row is decoded from the tail
   * followed by the first record's remaining bytes.
   */
  lemma ShortTailReusesBuffer(rec: seq<uint8>, tail: seq<uint8>)
    requires |rec| == RecordSize && 0 < |tail| < RecordSize
    requires Row(Decode(rec)).Success?
    ensures var stale := tail + rec[|tail|..];
      ExportFile(rec + tail) ==
        match Row(Decode(stale))
        case Success(second) => Export([Row(Decode(rec)).value, second], None)
        case Failure(e) => Export([Row(Decode(rec)).value], Some(e))
  {
    var file := rec + tail;
    var stale := tail + rec[|tail|..];
    ExportStep(file, 0, Zeros(RecordSize));
    assert Refill(Zeros(RecordSize), file, 0) == rec;
    assert file[RecordSize..] == tail;
    TailExport(file, RecordSize, rec);
    ThenLastRow(Export([Row(Decode(rec)).value], None), Row(Decode(stale)));
  }

  /** An export that, unless it stopped with an error, goes on with `next`. */
  function Then(e: Export, next: Export): Export
  {
    if e.failure.Some? then e else Prepend(e.rows, next)
  }

  lemma ContinueThen(row: Result<seq<Cell>, KeyError>, e: Export, next: Export)
    ensures Continue(row, Then(e, next)) == Then(Continue(row, e), next)
  {
    if row.Success? && e.failure.None? {
      PrependTwice([row.value], e.rows, next);
    }
  }

  /** With whole records between `pos` and `q`, `readinto` fills the buffer with the next one. */
  lemma RefillRecord(file: seq<uint8>, pos: nat, q: nat, buffer: seq<uint8>)
    requires pos < q <= |file| && (q - pos) % RecordSize == 0 && |buffer| == RecordSize
    ensures Min(RecordSize, |file| - pos) == RecordSize
    ensures pos + RecordSize <= q && (q - (pos + RecordSize)) % RecordSize == 0
    ensures var chunks := Records(file[pos..q]);
      chunks != [] && Refill(buffer, file, pos) == chunks[0] == file[pos..pos + RecordSize] &&
      chunks[1..] == Records(file[pos + RecordSize..q])
  {
    assert q - pos >= RecordSize;
    assert file[pos..q][RecordSize..] == file[pos + RecordSize..q];
    assert file[pos..q][..RecordSize] == file[pos..pos + RecordSize];
  }

  /**
   * Whole records from `pos` to `q` export as the reference export of those
   * records; unless one of them fails, the loop then goes on from `q` with
   * the last of them (or the untouched buffer) in the buffer.
   */
  lemma {:induction false} WholeRecordsThen(file: seq<uint8>, pos: nat, q: nat, buffer: seq<uint8>)
    requires pos <= q <= |file| && (q - pos) % RecordSize == 0 && |buffer| == RecordSize
    ensures ExportFrom(file, pos, buffer) ==
      Then(RowsOf(Records(file[pos..q])),
           ExportFrom(file, q, if q == pos then buffer else file[q - RecordSize..q]))
    decreases q - pos
  {
    if pos < q {
      var filled := Refill(buffer, file, pos);
      var chunks := Records(file[pos..q]);
      RefillRecord(file, pos, q, buffer);
      var last := file[q - RecordSize..q];
      WholeRecordsThen(file, pos + RecordSize, q, filled);
      assert (if q == pos + RecordSize then filled else last) == last;
      ExportStep(file, pos, buffer);
      RowsOfStep(chunks);
      ContinueThen(Row(Decode(filled)), RowsOf(chunks[1..]), ExportFrom(file, q, last));
    } else {
      assert Records(file[pos..q]) == [];
    }
  }

  /** The last, short `readinto` lays the tail over the front of the buffer, and the loop ends. */
  lemma TailExport(file: seq<uint8>, q: nat, last: seq<uint8>)
    requires q < |file| < q + RecordSize && |last| == RecordSize
    ensures ExportFrom(file, q, last) ==
      Continue(Row(Decode(file[q..] + last[|file| - q..])), Export([], None))
  {
    ExportStep(file, q, last);
    assert Refill(last, file, q) == file[q..] + last[|file| - q..];
  }

  /**
   * A file that is not a whole number of records, with `q` the length of
   * its whole records: those export as the reference export and, unless
   * one of them fails, the short tail then gives one more row (ThenLastRow),
   * decoded from the tail followed by the rest of the last whole record, or
   * of the zero buffer when there is none, or that row's KeyError.
   */
  lemma ShortTail(file: seq<uint8>, q: nat)
    requires q % RecordSize == 0 && q < |file| < q + RecordSize
    ensures var last := if q == 0 then Zeros(RecordSize) else file[q - RecordSize..q];
      ExportFile(file) ==
        Then(RowsOf(Records(file[..q])),
             Continue(Row(Decode(file[q..] + last[|file| - q..])), Export([], None)))
  {
    var last := if q == 0 then Zeros(RecordSize) else file[q - RecordSize..q];
    WholeRecordsThen(file, 0, q, Zeros(RecordSize));
    assert file[0..q] == file[..q];
    TailExport(file, q, last);
  }

  /** An export followed by one last row: the export's failure, or its rows and then that row or its KeyError. */
  lemma ThenLastRow(e: Export, row: Result<seq<Cell>, KeyError>)
    ensures e.failure.Some? ==> Then(e, Continue(row, Export([], None))) == e
    ensures e.failure.None? ==> (Then(e, Continue(row, Export([], None))) ==
      match row
      case Success(r) => Export(e.rows + [r], None)
      case Failure(err) => Export(e.rows, Some(err)))
  {
    if row.Success? {
      assert [row.value] + [] == [row.value];
    } else {
      assert e.rows + [] == e.rows;
    }
  }

  /**
   * No size check: a one-byte file holding the code 7 gives one
   * USER_PROCESS row, decoded from that byte over the zero-initialised
   * buffer, where the C++ decoder rejects the file.
   */
  lemma NoSizeCheck()
    ensures |ExportFile([7]).rows| == 1 && ExportFile([7]).failure == None
    ensures ExportFile([7]).rows[0][0] == Str("USER_PROCESS")
    ensures CppExport.Entries([7]) == Failure(CppExport.InvalidFileSize)
  {
    var filled := Refill(Zeros(RecordSize), [7], 0);
    assert filled[..4] == [7, 0, 0, 0];
    UserProcessCode(filled);
    ExportStep([7], 0, Zeros(RecordSize));
  }

  /** A buffer that starts with the code 7 gives a USER_PROCESS row. */
  lemma UserProcessCode(filled: seq<uint8>)
    requires |filled| == RecordSize && filled[..4] == [7, 0, 0, 0]
    ensures Row(Decode(filled)).Success? && Row(Decode(filled)).value[0] == Str("USER_PROCESS")
  {
    assert filled[TypeOffset..PidOffset] == [7, 0, 0, 0];
    assert TypesOfLogin[7] == "USER_PROCESS";
  }
}
