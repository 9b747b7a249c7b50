/**
 * The core of the C++ program's `main` (uwbdump.cpp:130-198): the header
 * line, the whole-file size check, the fail-fast read loop that collects
 * `struct utmp` entries, and the loop that writes one line per entry. The
 * input file is a byte sequence and the output file a sequence of lines.
 */
module CppExport {
  import opened Wrappers
  import opened Bytes
  import opened Text
  import opened CppLayout

  datatype DumpError = InvalidFileSize | InvalidLoginType

  /** What `main` prints for each error before it returns 1. */
  function Message(e: DumpError): (m: string)
    ensures "File error: " <= m
  {
    match e
    case InvalidFileSize => "File error: Invalid file size"
    case InvalidLoginType => "File error: Invalid login type."
  }

  /** The k-th record-sized chunk of the file. */
  function Chunk(file: seq<uint8>, k: nat): (c: seq<uint8>)
    requires (k + 1) * UtmpSize <= |file|
    ensures |c| == UtmpSize
  {
    file[k * UtmpSize..(k + 1) * UtmpSize]
  }

  /** Every chunk of a file of whole records, decoded, in file order. */
  function DecodeChunks(file: seq<uint8>): (d: seq<Utmp>)
    requires |file| % UtmpSize == 0
    ensures |d| == |file| / UtmpSize
    ensures forall k :: 0 <= k < |d| ==> d[k] == DecodeUtmp(Chunk(file, k))
  {
    seq(|file| / UtmpSize, k requires 0 <= k < |file| / UtmpSize => DecodeUtmp(Chunk(file, k)))
  }

  /** Every entry's type is one the read loop accepts. */
  predicate AllValid(d: seq<Utmp>)
  {
    forall k :: 0 <= k < |d| ==> ValidLoginType(d[k].utType)
  }

  /**
   * The entries the size check and the read loop collect: the file's
   * consecutive chunks in file order, or the first error.
   */
  function Entries(file: seq<uint8>): (res: Result<seq<Utmp>, DumpError>)
    ensures res.Success? ==> forall k :: 0 <= k < |res.value| ==>
      WellFormed(res.value[k]) && ValidLoginType(res.value[k].utType)
  {
    if |file| % UtmpSize != 0 then Failure(InvalidFileSize)
    else if !AllValid(DecodeChunks(file)) then Failure(InvalidLoginType)
    else Success(DecodeChunks(file))
  }

  /**
   * The size check and the read loop (uwbdump.cpp:150-172). `of.read` fills
   * the single `entry` buffer with the next whole record; an out-of-range
   * type ends the run at once.
   */
  method ReadEntries(file: seq<uint8>) returns (res: Result<seq<Utmp>, DumpError>)
    ensures res == Entries(file)
  {
    if |file| % UtmpSize != 0 {
      return Failure(InvalidFileSize);
    }
    var utmpEntries: seq<Utmp> := [];
    var pos := 0;
    while pos + UtmpSize <= |file|
      invariant pos == |utmpEntries| * UtmpSize <= |file|
      invariant forall k :: 0 <= k < |utmpEntries| ==>
        utmpEntries[k] == DecodeUtmp(Chunk(file, k)) && ValidLoginType(utmpEntries[k].utType)
    {
      var entry := DecodeUtmp(file[pos..pos + UtmpSize]);
      assert file[pos..pos + UtmpSize] == Chunk(file, |utmpEntries|);
      if entry.utType > 9 || entry.utType < 0 {
        return Failure(InvalidLoginType);
      }
      utmpEntries := utmpEntries + [entry];
      pos := pos + UtmpSize;
    }
    assert utmpEntries == DecodeChunks(file);
    return Success(utmpEntries);
  }

  /** The writing loop (uwbdump.cpp:174-186): one line per entry, in order. */
  method WriteRows(utmpEntries: seq<Utmp>) returns (lines: seq<string>)
    requires forall k :: 0 <= k < |utmpEntries| ==>
      WellFormed(utmpEntries[k]) && ValidLoginType(utmpEntries[k].utType)
    ensures |lines| == |utmpEntries|
    ensures forall k :: 0 <= k < |utmpEntries| ==> lines[k] == CsvLine(CppRow(utmpEntries[k]))
  {
    lines := [];
    for i := 0 to |utmpEntries|
      invariant |lines| == i
      invariant forall k :: 0 <= k < i ==> lines[k] == CsvLine(CppRow(utmpEntries[k]))
    {
      var line := CsvLine(CppRow(utmpEntries[i]));
      WriteStep(utmpEntries, lines, i, line);
      lines := lines + [line];
    }
  }

  /** Appending the i-th entry's line keeps every earlier line in place. */
  lemma WriteStep(utmpEntries: seq<Utmp>, lines: seq<string>, i: nat, line: string)
    requires i < |utmpEntries| && |lines| == i
    requires forall k :: 0 <= k < |utmpEntries| ==>
      WellFormed(utmpEntries[k]) && ValidLoginType(utmpEntries[k].utType)
    requires forall k :: 0 <= k < i ==> lines[k] == CsvLine(CppRow(utmpEntries[k]))
    requires line == CsvLine(CppRow(utmpEntries[i]))
    ensures forall k :: 0 <= k < i + 1 ==> (lines + [line])[k] == CsvLine(CppRow(utmpEntries[k]))
  {
  }

  /**
   * One run over an opened input: the header goes out first, before the
   * input is checked, so a rejected file leaves the header line alone in the
   * output. Success returns 0; every error returns 1 with its message.
   */
  method Dump(file: seq<uint8>) returns (exitCode: int, message: string, lines: seq<string>)
    ensures |lines| >= 1 && lines[0] == Header
    ensures exitCode == 0 <==> Entries(file).Success?
    ensures Entries(file).Failure? ==>
      exitCode == 1 && message == Message(Entries(file).error) && lines == [Header]
    ensures Entries(file).Success? ==>
      message == [] && |lines| == 1 + |Entries(file).value| &&
      forall k :: 0 <= k < |Entries(file).value| ==>
        lines[k + 1] == CsvLine(CppRow(Entries(file).value[k]))
  {
    lines := [Header];
    var res := ReadEntries(file);
    match res {
      case Failure(e) =>
        return 1, Message(e), lines;
      case Success(utmpEntries) =>
        var rows := WriteRows(utmpEntries);
        return 0, [], lines + rows;
    }
  }

  // ---------------------------------------------------------------------
  // Properties of the read
  // ---------------------------------------------------------------------

  /** A length that is not a whole number of records is rejected before any decoding. */
  lemma SizeMismatchRejected(file: seq<uint8>)
    requires |file| % UtmpSize != 0
    ensures Entries(file) == Failure(InvalidFileSize)
  {
  }

  /** An empty file passes the size check and yields no entries. */
  lemma EmptyFileAccepted()
    ensures Entries([]) == Success([])
  {
    assert Entries([]).Success? && |Entries([]).value| == 0;
  }

  /**
   * Concatenating two files: the result is accepted exactly when both parts
   * are, and its entries are those of the first part followed by those of
   * the second. This is the file-order, one-entry-per-chunk property.
   */
  lemma EntriesAppend(f1: seq<uint8>, f2: seq<uint8>)
    requires |f1| % UtmpSize == 0
    ensures Entries(f1 + f2).Success? <==> Entries(f1).Success? && Entries(f2).Success?
    ensures Entries(f1 + f2).Success? ==>
      Entries(f1 + f2).value == Entries(f1).value + Entries(f2).value
  {
    var f := f1 + f2;
    var n1 := |f1| / UtmpSize;
    assert |f| == n1 * UtmpSize + |f2|;
    assert |f| % UtmpSize == |f2| % UtmpSize;
    if |f2| % UtmpSize == 0 {
      AppendChunks(f1, f2);
      AllValidAppend(DecodeChunks(f1), DecodeChunks(f2));
    }
  }

  lemma AllValidAppend(d1: seq<Utmp>, d2: seq<Utmp>)
    ensures AllValid(d1 + d2) <==> AllValid(d1) && AllValid(d2)
  {
    var d := d1 + d2;
    assert forall k :: 0 <= k < |d1| ==> d[k] == d1[k];
    assert forall k :: 0 <= k < |d2| ==> d[|d1| + k] == d2[k];
    if AllValid(d1) && AllValid(d2) {
      forall k | 0 <= k < |d| ensures ValidLoginType(d[k].utType) {
        if k >= |d1| {
          assert d[|d1| + (k - |d1|)] == d2[k - |d1|];
        }
      }
    }
  }

  /** The decoded chunks of two files laid end to end are those of the first, then the second. */
  lemma AppendChunks(f1: seq<uint8>, f2: seq<uint8>)
    requires |f1| % UtmpSize == 0 && |f2| % UtmpSize == 0
    ensures |f1 + f2| % UtmpSize == 0
    ensures DecodeChunks(f1 + f2) == DecodeChunks(f1) + DecodeChunks(f2)
  {
    var f := f1 + f2;
    WholeSum(|f1|, |f2|);
    var d, d1, d2 := DecodeChunks(f), DecodeChunks(f1), DecodeChunks(f2);
    assert |d| == |d1| + |d2|;
    forall k | 0 <= k < |d| ensures d[k] == (d1 + d2)[k] {
      ChunkOfAppend(f1, f2, k);
    }
  }

  /** Two lengths of whole records add up to a length of whole records. */
  lemma WholeSum(a: nat, b: nat)
    requires a % 384 == 0 && b % 384 == 0
    ensures (a + b) % 384 == 0 && (a + b) / 384 == a / 384 + b / 384
  {
  }

  /** The chunks of two files laid end to end, the first a whole number of records long. */
  lemma ChunkOfAppend(f1: seq<uint8>, f2: seq<uint8>, k: nat)
    requires |f1| % UtmpSize == 0 && (k + 1) * UtmpSize <= |f1| + |f2|
    ensures k < |f1| / UtmpSize ==> Chunk(f1 + f2, k) == Chunk(f1, k)
    ensures k >= |f1| / UtmpSize ==>
      (k - |f1| / UtmpSize + 1) * UtmpSize <= |f2| &&
      Chunk(f1 + f2, k) == Chunk(f2, k - |f1| / UtmpSize)
  {
    var n1 := |f1| / UtmpSize;
    assert |f1| == n1 * UtmpSize;
    assert (k + 1) * UtmpSize == k * UtmpSize + UtmpSize;
    if k < n1 {
      assert (k + 1) * UtmpSize <= n1 * UtmpSize;
    } else {
      var j := k - n1;
      assert k * UtmpSize == j * UtmpSize + |f1|;
      assert (j + 1) * UtmpSize == j * UtmpSize + UtmpSize;
    }
  }

  /** One record whose type is out of range rejects the whole file, wherever it stands. */
  lemma InvalidRecordRejectsFile(file: seq<uint8>, k: nat)
    requires |file| % UtmpSize == 0 && (k + 1) * UtmpSize <= |file|
    requires !ValidLoginType(DecodeUtmp(Chunk(file, k)).utType)
    ensures Entries(file) == Failure(InvalidLoginType)
  {
    assert k < |file| / UtmpSize;
  }

  /** A file holding one well-formed record with an accepted type yields exactly that record. */
  lemma SingleRecordFile(u: Utmp)
    requires WellFormed(u) && ValidLoginType(u.utType)
    ensures Entries(EncodeUtmp(u)) == Success([u])
  {
    var raw := EncodeUtmp(u);
    assert Chunk(raw, 0) == raw;
    DecodeEncode(u);
    assert seq(1, k requires 0 <= k < 1 => DecodeUtmp(Chunk(raw, k))) == [u];
  }

  /** A USER_PROCESS record with pid 1234, address word 0x0100007F and empty text. */
  const UserProcessRecord: Utmp :=
    Utmp(USER_PROCESS, 1234, Zeros(UT_LINESIZE), Zeros(UT_IDSIZE), Zeros(UT_NAMESIZE),
         Zeros(UT_HOSTSIZE), ExitStatus(0, 0), 0, TimeVal(0, 0), [0x0100007F, 0, 0, 0],
         Zeros(PADSIZE))

  lemma UserProcessWellFormed()
    ensures WellFormed(UserProcessRecord) && ValidLoginType(UserProcessRecord.utType)
  {
  }

  /** The file holding just that record is accepted. */
  lemma UserProcessFile()
    ensures WellFormed(UserProcessRecord)
    ensures Entries(EncodeUtmp(UserProcessRecord)) == Success([UserProcessRecord])
  {
    UserProcessWellFormed();
    SingleRecordFile(UserProcessRecord);
  }

  /** Its row starts with `USER_PROCESS` and `1234` and ends with the column `127.0.0.1`. */
  lemma UserProcessRow()
    ensures WellFormed(UserProcessRecord) && ValidLoginType(UserProcessRecord.utType)
    ensures CppRow(UserProcessRecord)[0] == "USER_PROCESS"
    ensures CppRow(UserProcessRecord)[1] == "1234"
    ensures CppRow(UserProcessRecord)[9] == "127.0.0.1"
  {
    UserProcessWellFormed();
    DecimalExample();
    IntToIpV4Loopback();
  }

  // ---------------------------------------------------------------------
  // The id column as written
  // ---------------------------------------------------------------------

  /**
   * What streaming a `char` array as a C string prints, as the source is
   * written: the bytes from the field's offset up to the first zero byte of
   * the record, wherever that lies. Past the end of the record the source
   * reads whatever memory follows; this function stops at the record's end.
   */
  function CStringAt(raw: seq<uint8>, offset: nat): (s: seq<uint8>)
    requires offset <= |raw|
    ensures |s| <= |raw| - offset
  {
    DecodeFixedText(raw[offset..])
  }

  /**
   * `ut_id` is 4 bytes wide and usually holds no zero byte; streamed as a C
   * string it then runs on into `ut_user`, so the id column holds the id
   * followed by the user name.
   */
  lemma IdColumnOverRead(raw: seq<uint8>)
    requires |raw| == UtmpSize
    requires forall i :: IdOffset <= i < UserOffset ==> raw[i] != 0
    ensures CStringAt(raw, IdOffset) == raw[IdOffset..UserOffset] + CStringAt(raw, UserOffset)
    ensures raw[UserOffset] != 0 ==> |CStringAt(raw, IdOffset)| > UT_IDSIZE
  {
    assert raw[IdOffset..] == raw[IdOffset..UserOffset] + raw[UserOffset..];
    FixedTextAppend(raw[IdOffset..UserOffset], raw[UserOffset..]);
  }

  /**
   * A record whose id is `tty1` and whose user is `root`: the source prints
   * `tty1root` in the id column, the bounded read `tty1`.
   */
  lemma IdColumnOverReadExample(raw: seq<uint8>)
    requires |raw| == UtmpSize
    requires raw[IdOffset..UserOffset] == [116, 116, 121, 49]
    requires raw[UserOffset..UserOffset + 5] == [114, 111, 111, 116, 0]
    ensures CStringAt(raw, IdOffset) == [116, 116, 121, 49, 114, 111, 111, 116]
    ensures WindowText(raw[IdOffset..UserOffset]) == "tty1"
  {
    assert forall i :: IdOffset <= i < UserOffset ==> raw[i] == raw[IdOffset..UserOffset][i - IdOffset];
    IdColumnOverRead(raw);
    var rest := raw[UserOffset..];
    assert rest[..5] == raw[UserOffset..UserOffset + 5];
    assert rest[0] != 0 && rest[1] != 0 && rest[2] != 0 && rest[3] != 0 && rest[4] == 0;
    FixedTextStopsAtZero(rest, 4);
    assert rest[..4] == [114, 111, 111, 116];
    FixedTextFull(raw[IdOffset..UserOffset]);
  }
}
