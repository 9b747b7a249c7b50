/**
 * The Python decoder's record: the packed little-endian `UtmpLoginRecords`
 * structure (uwbdump.py:37-52), the `TypesOfLogin` dictionary, the address
 * column with its `inet_ntoa` fallback, and the thirteen-value row that
 * `utmp_to_csv` writes for one record (uwbdump.py:100-117).
 */
module PyLayout {
  import opened Wrappers
  import opened Bytes
  import opened Text
  import CppLayout

  // Byte offsets of the packed fields (`_pack_ = 1`: no padding anywhere)
  const TypeOffset := 0
  const PidOffset := 4
  const TerminalOffset := 8
  const TerminalIdOffset := 40
  const UsernameOffset := 44
  const HostnameOffset := 76
  const TerminationOffset := 332
  const ExitStatusOffset := 334
  const SessionOffset := 336
  const TimestampOffset := 340
  const MicrosecondsOffset := 344
  const IpAddressOffset := 348
  const UnknownOffset := 364
  /** sizeof(UtmpLoginRecords) */
  const RecordSize := 384

  /** Each field starts where the previous one ends; the widths add up to 384. */
  lemma PackedLayout()
    ensures PidOffset == TypeOffset + 4 && TerminalOffset == PidOffset + 4
    ensures TerminalIdOffset == TerminalOffset + 32 && UsernameOffset == TerminalIdOffset + 4
    ensures HostnameOffset == UsernameOffset + 32 && TerminationOffset == HostnameOffset + 256
    ensures ExitStatusOffset == TerminationOffset + 2 && SessionOffset == ExitStatusOffset + 2
    ensures TimestampOffset == SessionOffset + 4 && MicrosecondsOffset == TimestampOffset + 4
    ensures IpAddressOffset == MicrosecondsOffset + 4 && UnknownOffset == IpAddressOffset + 16
    ensures RecordSize == UnknownOffset + 20 == CppLayout.UtmpSize
  {
  }

  /** One `UtmpLoginRecords`; the `c_char` fields are kept as their raw windows. */
  datatype LoginRecord = LoginRecord(
    typeOfLogin: int,
    pid: int,
    terminal: seq<uint8>,
    terminalIdentifier: int,
    username: seq<uint8>,
    hostname: seq<uint8>,
    terminationStatus: int,
    exitStatus: int,
    session: int,
    timestamp: int,
    microseconds: int,
    ipAddress: seq<uint8>,
    unknown: seq<uint8>)

  /** Every field holds a value of its ctypes type and width. */
  predicate WellFormed(r: LoginRecord)
  {
    IsU32(r.typeOfLogin) && IsU32(r.pid) && |r.terminal| == 32 &&
    IsU32(r.terminalIdentifier) && |r.username| == 32 && |r.hostname| == 256 &&
    IsU16(r.terminationStatus) && IsU16(r.exitStatus) && IsU32(r.session) &&
    IsU32(r.timestamp) && IsU32(r.microseconds) &&
    |r.ipAddress| == 16 && |r.unknown| == 20
  }

  /** The structure's view of one full buffer. */
  function Decode(raw: seq<uint8>): (r: LoginRecord)
    requires |raw| == RecordSize
    ensures WellFormed(r)
  {
    LoginRecord(
      LoadU32(raw[TypeOffset..PidOffset]),
      LoadU32(raw[PidOffset..TerminalOffset]),
      raw[TerminalOffset..TerminalIdOffset],
      LoadU32(raw[TerminalIdOffset..UsernameOffset]),
      raw[UsernameOffset..HostnameOffset],
      raw[HostnameOffset..TerminationOffset],
      LoadU16(raw[TerminationOffset..ExitStatusOffset]),
      LoadU16(raw[ExitStatusOffset..SessionOffset]),
      LoadU32(raw[SessionOffset..TimestampOffset]),
      LoadU32(raw[TimestampOffset..MicrosecondsOffset]),
      LoadU32(raw[MicrosecondsOffset..IpAddressOffset]),
      raw[IpAddressOffset..UnknownOffset],
      raw[UnknownOffset..RecordSize])
  }

  /** The bytes of a record in the packed layout. */
  function Encode(r: LoginRecord): (raw: seq<uint8>)
    requires WellFormed(r)
    ensures |raw| == RecordSize
  {
    StoreU32(r.typeOfLogin) + StoreU32(r.pid) + r.terminal + StoreU32(r.terminalIdentifier)
    + r.username + r.hostname + StoreU16(r.terminationStatus) + StoreU16(r.exitStatus)
    + StoreU32(r.session) + StoreU32(r.timestamp) + StoreU32(r.microseconds)
    + r.ipAddress + r.unknown
  }

  /** Where each field lands in the encoding. */
  lemma EncodeSlices(r: LoginRecord)
    requires WellFormed(r)
    ensures var raw := Encode(r);
      raw[TypeOffset..PidOffset] == StoreU32(r.typeOfLogin) &&
      raw[PidOffset..TerminalOffset] == StoreU32(r.pid) &&
      raw[TerminalOffset..TerminalIdOffset] == r.terminal &&
      raw[TerminalIdOffset..UsernameOffset] == StoreU32(r.terminalIdentifier) &&
      raw[UsernameOffset..HostnameOffset] == r.username &&
      raw[HostnameOffset..TerminationOffset] == r.hostname &&
      raw[TerminationOffset..ExitStatusOffset] == StoreU16(r.terminationStatus) &&
      raw[ExitStatusOffset..SessionOffset] == StoreU16(r.exitStatus) &&
      raw[SessionOffset..TimestampOffset] == StoreU32(r.session) &&
      raw[TimestampOffset..MicrosecondsOffset] == StoreU32(r.timestamp) &&
      raw[MicrosecondsOffset..IpAddressOffset] == StoreU32(r.microseconds) &&
      raw[IpAddressOffset..UnknownOffset] == r.ipAddress &&
      raw[UnknownOffset..RecordSize] == r.unknown
  {
  }

  /** Decoding the bytes of a well-formed record gives the record back. */
  lemma DecodeEncode(r: LoginRecord)
    requires WellFormed(r)
    ensures Decode(Encode(r)) == r
  {
    EncodeSlices(r);
  }

  /** The packed layout has no padding: re-encoding a decoded buffer gives every byte back. */
  lemma EncodeDecode(raw: seq<uint8>)
    requires |raw| == RecordSize
    ensures Encode(Decode(raw)) == raw
  {
    var e := Encode(Decode(raw));
    EncodeSlices(Decode(raw));
    StoreLoadU32(raw[0..4]);
    AgreeOn(e, raw, 0, 4);
    StoreLoadU32(raw[4..8]);
    AgreeOn(e, raw, 4, 8);
    AgreeOn(e, raw, 8, 40);
    StoreLoadU32(raw[40..44]);
    AgreeOn(e, raw, 40, 44);
    AgreeOn(e, raw, 44, 76);
    AgreeOn(e, raw, 76, 332);
    StoreLoadU16(raw[332..334]);
    AgreeOn(e, raw, 332, 334);
    StoreLoadU16(raw[334..336]);
    AgreeOn(e, raw, 334, 336);
    StoreLoadU32(raw[336..340]);
    AgreeOn(e, raw, 336, 340);
    StoreLoadU32(raw[340..344]);
    AgreeOn(e, raw, 340, 344);
    StoreLoadU32(raw[344..348]);
    AgreeOn(e, raw, 344, 348);
    AgreeOn(e, raw, 348, 364);
    AgreeOn(e, raw, 364, 384);
  }

  /**
   * The 32-bit type spans the C struct's `short ut_type` and the two padding
   * bytes after it; the two decoders read the same code when those padding
   * bytes are zero and the short is not negative.
   */
  lemma TypeSpansCppPadding(raw: seq<uint8>)
    requires |raw| == RecordSize
    ensures Decode(raw).typeOfLogin == LoadU16(raw[0..2]) + 0x1_0000 * LoadU16(raw[2..4])
    ensures raw[2] == raw[3] == 0 && CppLayout.DecodeUtmp(raw).utType >= 0 ==>
      Decode(raw).typeOfLogin == CppLayout.DecodeUtmp(raw).utType
  {
  }

  // ---------------------------------------------------------------------
  // Login-type labels (uwbdump.py:26-35)
  // ---------------------------------------------------------------------

  const TypesOfLogin: map<int, string> := map[
    0 := "EMPTY UT_UNKNOWN", 1 := "RUN_LVL", 2 := "BOOT_TIME", 3 := "NEW_TIME",
    4 := "OLD_TIME", 5 := "INIT_PROCESS", 6 := "LOGIN_PROCESS", 7 := "USER_PROCESS",
    8 := "DEAD_PROCESS", 9 := "ACCOUNTING"]

  /**
   * The dictionary's keys are the codes 0 to 9, its ten names differ, and
   * they match the C++ table except for code 0.
   */
  lemma TypesOfLoginTable()
    ensures forall t :: t in TypesOfLogin <==> 0 <= t <= 9
    ensures forall i, j :: 0 <= i < j <= 9 ==> TypesOfLogin[i] != TypesOfLogin[j]
    ensures forall t :: 1 <= t <= 9 ==> TypesOfLogin[t] == CppLayout.TypeOfLogin[t]
    ensures TypesOfLogin[0] == "EMPTY UT_UNKNOWN" != CppLayout.TypeOfLogin[0]
  {
  }

  // ---------------------------------------------------------------------
  // The address column (uwbdump.py:100-103)
  // ---------------------------------------------------------------------

  datatype OsError = PackedIpWrongLength

  /** `socket.inet_ntoa`: four packed bytes in stored order, anything else an error. */
  function InetNtoa(packed: seq<uint8>): (r: Result<string, OsError>)
    ensures r.Success? <==> |packed| == 4
  {
    if |packed| == 4 then Success(DottedQuad(packed)) else Failure(PackedIpWrongLength)
  }

  /**
   * A value written to the CSV file: a `str`, an `int`, a text field
   * (decoded from UTF-8 by the source, kept as its bytes here), a `bytes`
   * object (written as its Python representation), or a timestamp (rendered
   * by `unix_to_human` in the source, kept as seconds here).
   */
  datatype Cell = Str(s: string) | Int(i: int) | Text(text: seq<uint8>) | Raw(bytes: seq<uint8>) | Time(seconds: int)

  /**
   * The `ip` value: reading `ip_address` yields its bytes up to the first
   * zero byte; `inet_ntoa` accepts that value only when it is 4 bytes long,
   * and otherwise the `bytes` value itself is written.
   */
  function IpColumn(window: seq<uint8>): Cell
  {
    var value := DecodeFixedText(window);
    match InetNtoa(value)
    case Success(quad) => Str(quad)
    case Failure(_) => Raw(value)
  }

  /**
   * The column is a dotted quad exactly when the first four bytes are
   * non-zero and the fifth is zero; it then reads like the C++ column for
   * the same word. Otherwise it holds the bytes before the first zero.
   */
  lemma IpColumnCases(window: seq<uint8>)
    requires |window| == 16
    ensures IpColumn(window).Str? <==> (forall i :: 0 <= i < 4 ==> window[i] != 0) && window[4] == 0
    ensures IpColumn(window).Str? ==>
      IpColumn(window) == Str(DottedQuad(window[..4])) &&
      IpColumn(window).s == CppLayout.IntToIpV4(LoadU32(window[..4]))
    ensures IpColumn(window).Raw? ==> IpColumn(window) == Raw(DecodeFixedText(window))
  {
    if (forall i :: 0 <= i < 4 ==> window[i] != 0) && window[4] == 0 {
      FixedTextStopsAtZero(window, 4);
      StoreLoadU32(window[..4]);
      CppLayout.IntToIpV4Octets(LoadU32(window[..4]));
    }
  }

  /**
   * The loopback address stored as 7F 00 00 01 is cut at its first zero
   * byte, so the column holds the one byte 7F rather than 127.0.0.1.
   */
  lemma IpColumnLoopback(window: seq<uint8>)
    requires |window| == 16 && window[..4] == [127, 0, 0, 1]
    ensures IpColumn(window) == Raw([127])
  {
    FixedTextStopsAtZero(window, 1);
    assert window[..1] == [127];
  }

  // ---------------------------------------------------------------------
  // One output row (uwbdump.py:81-92, 105-117)
  // ---------------------------------------------------------------------

  const Header: seq<string> := [
    "type_of_login", "PID", "terminal", "terminal_identifier", "username", "hostname",
    "termination_status", "exit_status", "session", "timestamp UTC+0", "microseconds",
    "ip_address", "unknown"]

  /** The header as the row of cells `writer.writerow` writes first. */
  const HeaderRow: seq<Cell> := seq(|Header|, i requires 0 <= i < |Header| => Str(Header[i]))

  /** `TypesOfLogin[record.type_of_login]` raises KeyError for an unknown code. */
  datatype KeyError = KeyError(key: int)

  /**
   * The thirteen values written for one record, in header order, or the
   * KeyError that the label lookup raises for a code outside 0 to 9.
   */
  function Row(r: LoginRecord): (row: Result<seq<Cell>, KeyError>)
    requires WellFormed(r)
    ensures row.Failure? <==> !(0 <= r.typeOfLogin <= 9)
    ensures row.Failure? ==> row.error == KeyError(r.typeOfLogin)
    ensures row.Success? ==> |row.value| == |Header| == 13
  {
    if r.typeOfLogin !in TypesOfLogin then Failure(KeyError(r.typeOfLogin))
    else
      Success([Str(TypesOfLogin[r.typeOfLogin]),
               Int(r.pid),
               Text(DecodeFixedText(r.terminal)),
               Int(r.terminalIdentifier),
               Text(DecodeFixedText(r.username)),
               Text(DecodeFixedText(r.hostname)),
               Int(r.terminationStatus),
               Int(r.exitStatus),
               Int(r.session),
               Time(r.timestamp),
               Int(r.microseconds),
               IpColumn(r.ipAddress),
               Text(DecodeFixedText(r.unknown))])
  }

  /**
   * Each text column is its window up to the first zero byte, or the whole
   * window when it holds none.
   */
  lemma RowTextWithinWindows(r: LoginRecord)
    requires WellFormed(r) && Row(r).Success?
    ensures var row := Row(r).value;
      row[2].Text? && row[2].text <= r.terminal && 0 !in row[2].text &&
      (|row[2].text| < |r.terminal| ==> r.terminal[|row[2].text|] == 0) &&
      row[4].Text? && row[4].text <= r.username && 0 !in row[4].text &&
      (|row[4].text| < |r.username| ==> r.username[|row[4].text|] == 0) &&
      row[5].Text? && row[5].text <= r.hostname && 0 !in row[5].text &&
      (|row[5].text| < |r.hostname| ==> r.hostname[|row[5].text|] == 0) &&
      row[12].Text? && row[12].text <= r.unknown && 0 !in row[12].text &&
      (|row[12].text| < |r.unknown| ==> r.unknown[|row[12].text|] == 0)
  {
  }
}
