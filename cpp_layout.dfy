/**
 * The C++ decoder's record: `struct utmp` read raw from the file on a
 * little-endian host with natural alignment (uwbdump.cpp:25-53), the
 * login-type label table, `intToIpV4`, and the ten-column row that `main`
 * writes for each accepted record.
 */
module CppLayout {
  import opened Wrappers
  import opened Bytes
  import opened Text

  // Login types (uwbdump.cpp:9-18)
  const UT_UNKNOWN := 0
  const RUN_LVL := 1
  const BOOT_TIME := 2
  const NEW_TIME := 3
  const OLD_TIME := 4
  const INIT_PROCESS := 5
  const LOGIN_PROCESS := 6
  const USER_PROCESS := 7
  const DEAD_PROCESS := 8
  const ACCOUNTING := 9

  // Text widths (uwbdump.cpp:21-23)
  const UT_LINESIZE := 32
  const UT_NAMESIZE := 32
  const UT_HOSTSIZE := 256
  const UT_IDSIZE := 4
  const PADSIZE := 20

  // Byte offsets of the fields of `struct utmp`
  const TypeOffset := 0
  const PidOffset := 4      // two padding bytes follow the 2-byte `short ut_type`
  const LineOffset := 8
  const IdOffset := 40
  const UserOffset := 44
  const HostOffset := 76
  const ExitOffset := 332   // e_termination, then e_exit at 334
  const SessionOffset := 336
  const TvOffset := 340     // tv_sec, then tv_usec at 344
  const AddrOffset := 348   // four uint32 words
  const PadOffset := 364
  /** sizeof(utmp) */
  const UtmpSize := 384

  /** The first multiple of `a` at or after `n`: where a field of alignment `a` starts. */
  function AlignUp(n: nat, a: nat): (r: nat)
    requires a > 0
  {
    if n % a == 0 then n else n + (a - n % a)
  }

  /**
   * The offsets above follow from the declared widths under natural
   * alignment: each field starts at the end of the previous one rounded up
   * to its own alignment (2 for shorts, 4 for 32-bit words, 1 for chars),
   * and the size is rounded up to the largest alignment, 4.
   */
  lemma NaturalLayout()
    ensures TypeOffset == 0
    ensures PidOffset == AlignUp(TypeOffset + 2, 4) && PidOffset - (TypeOffset + 2) == 2
    ensures LineOffset == PidOffset + 4
    ensures IdOffset == LineOffset + UT_LINESIZE
    ensures UserOffset == IdOffset + UT_IDSIZE
    ensures HostOffset == UserOffset + UT_NAMESIZE
    ensures ExitOffset == AlignUp(HostOffset + UT_HOSTSIZE, 2)
    ensures SessionOffset == AlignUp(ExitOffset + 4, 4)
    ensures TvOffset == AlignUp(SessionOffset + 4, 4)
    ensures AddrOffset == AlignUp(TvOffset + 8, 4)
    ensures PadOffset == AddrOffset + 16
    ensures UtmpSize == AlignUp(PadOffset + PADSIZE, 4) == 384
  {
  }

  datatype ExitStatus = ExitStatus(eTermination: int, eExit: int)

  datatype TimeVal = TimeVal(tvSec: int, tvUsec: int)

  /** One `struct utmp`; text fields are the raw windows, padding bytes are not kept. */
  datatype Utmp = Utmp(
    utType: int,
    utPid: int,
    utLine: seq<uint8>,
    utId: seq<uint8>,
    utUser: seq<uint8>,
    utHost: seq<uint8>,
    utExit: ExitStatus,
    utSession: int,
    utTv: TimeVal,
    utAddrV6: seq<int>,
    pad: seq<uint8>)

  /** Every field holds a value of its declared C type and width. */
  predicate WellFormed(u: Utmp)
  {
    IsI16(u.utType) && IsU32(u.utPid) &&
    |u.utLine| == UT_LINESIZE && |u.utId| == UT_IDSIZE &&
    |u.utUser| == UT_NAMESIZE && |u.utHost| == UT_HOSTSIZE &&
    IsI16(u.utExit.eTermination) && IsI16(u.utExit.eExit) &&
    IsU32(u.utSession) && IsI32(u.utTv.tvSec) && IsI32(u.utTv.tvUsec) &&
    |u.utAddrV6| == 4 && (forall k :: 0 <= k < 4 ==> IsU32(u.utAddrV6[k])) &&
    |u.pad| == PADSIZE
  }

  /** The four address words, as stored one after another. */
  function AddrWords(raw: seq<uint8>): (w: seq<int>)
    requires |raw| == 16
    ensures |w| == 4 && forall k :: 0 <= k < 4 ==> IsU32(w[k])
  {
    [LoadU32(raw[0..4]), LoadU32(raw[4..8]), LoadU32(raw[8..12]), LoadU32(raw[12..16])]
  }

  /** Interpreting one record-sized chunk as `struct utmp` (the raw `of.read` into `entry`). */
  function DecodeUtmp(raw: seq<uint8>): (u: Utmp)
    requires |raw| == UtmpSize
    ensures WellFormed(u)
  {
    Utmp(
      ToI16(LoadU16(raw[TypeOffset..TypeOffset + 2])),
      LoadU32(raw[PidOffset..PidOffset + 4]),
      raw[LineOffset..IdOffset],
      raw[IdOffset..UserOffset],
      raw[UserOffset..HostOffset],
      raw[HostOffset..ExitOffset],
      ExitStatus(ToI16(LoadU16(raw[ExitOffset..ExitOffset + 2])),
                 ToI16(LoadU16(raw[ExitOffset + 2..SessionOffset]))),
      LoadU32(raw[SessionOffset..TvOffset]),
      TimeVal(ToI32(LoadU32(raw[TvOffset..TvOffset + 4])),
              ToI32(LoadU32(raw[TvOffset + 4..AddrOffset]))),
      AddrWords(raw[AddrOffset..PadOffset]),
      raw[PadOffset..UtmpSize])
  }

  /** `ut_type`, the two padding bytes after it, and `ut_pid`: bytes 0..8. */
  function EncodeHead(u: Utmp): (raw: seq<uint8>)
    requires WellFormed(u)
    ensures |raw| == LineOffset
    ensures raw[..2] == StoreU16(FromI16(u.utType)) && raw[2..4] == [0, 0]
    ensures raw[4..] == StoreU32(u.utPid)
  {
    StoreU16(FromI16(u.utType)) + [0, 0] + StoreU32(u.utPid)
  }

  /** `ut_exit`, `ut_session` and `ut_tv`: bytes 332..348. */
  function EncodeNumbers(u: Utmp): (raw: seq<uint8>)
    requires WellFormed(u)
    ensures |raw| == AddrOffset - ExitOffset
    ensures raw[..2] == StoreU16(FromI16(u.utExit.eTermination))
    ensures raw[2..4] == StoreU16(FromI16(u.utExit.eExit))
    ensures raw[4..8] == StoreU32(u.utSession)
    ensures raw[8..12] == StoreU32(FromI32(u.utTv.tvSec))
    ensures raw[12..] == StoreU32(FromI32(u.utTv.tvUsec))
  {
    var a, b := StoreU16(FromI16(u.utExit.eTermination)), StoreU16(FromI16(u.utExit.eExit));
    var c, d, e := StoreU32(u.utSession), StoreU32(FromI32(u.utTv.tvSec)), StoreU32(FromI32(u.utTv.tvUsec));
    assert (a + b + c + d + e)[8..12] == d;
    a + b + c + d + e
  }

  /** `ut_addr_v6`, word by word: bytes 348..364. */
  function EncodeAddr(words: seq<int>): (raw: seq<uint8>)
    requires |words| == 4 && forall k :: 0 <= k < 4 ==> IsU32(words[k])
    ensures |raw| == 16 && AddrWords(raw) == words
  {
    var a, b, c, d := StoreU32(words[0]), StoreU32(words[1]), StoreU32(words[2]), StoreU32(words[3]);
    var raw := a + b + c + d;
    assert raw[0..4] == a && raw[4..8] == b && raw[8..12] == c && raw[12..16] == d;
    raw
  }

  /** The bytes of a record as the struct lays them out, with zero padding. */
  function EncodeUtmp(u: Utmp): (raw: seq<uint8>)
    requires WellFormed(u)
    ensures |raw| == UtmpSize
  {
    EncodeHead(u) + u.utLine + u.utId + u.utUser + u.utHost
    + EncodeNumbers(u) + EncodeAddr(u.utAddrV6) + u.pad
  }

  /** Where each group of fields lands in the encoding. */
  lemma EncodeSlices(u: Utmp)
    requires WellFormed(u)
    ensures var raw := EncodeUtmp(u);
      raw[..LineOffset] == EncodeHead(u) &&
      raw[LineOffset..IdOffset] == u.utLine &&
      raw[IdOffset..UserOffset] == u.utId &&
      raw[UserOffset..HostOffset] == u.utUser &&
      raw[HostOffset..ExitOffset] == u.utHost &&
      raw[ExitOffset..AddrOffset] == EncodeNumbers(u) &&
      raw[AddrOffset..PadOffset] == EncodeAddr(u.utAddrV6) &&
      raw[PadOffset..] == u.pad
  {
  }

  /** Decoding the bytes of a well-formed record gives the record back. */
  lemma DecodeEncode(u: Utmp)
    requires WellFormed(u)
    ensures DecodeUtmp(EncodeUtmp(u)) == u
  {
    var raw := EncodeUtmp(u);
    EncodeSlices(u);
    var h, n := EncodeHead(u), EncodeNumbers(u);
    SliceOfSlice(raw, 0, LineOffset, 0, 2);
    SliceOfSlice(raw, 0, LineOffset, 4, 8);
    SliceOfSlice(raw, ExitOffset, AddrOffset, 0, 2);
    SliceOfSlice(raw, ExitOffset, AddrOffset, 2, 4);
    SliceOfSlice(raw, ExitOffset, AddrOffset, 4, 8);
    SliceOfSlice(raw, ExitOffset, AddrOffset, 8, 12);
    SliceOfSlice(raw, ExitOffset, AddrOffset, 12, 16);
  }

  /** Re-encoding the head of a decoded chunk keeps `ut_type` and `ut_pid` and zeroes the padding. */
  lemma ReencodedHead(raw: seq<uint8>)
    requires |raw| == UtmpSize
    ensures var h := EncodeHead(DecodeUtmp(raw));
      h[0..2] == raw[0..2] && h[2..4] == [0, 0] && h[4..8] == raw[4..8]
  {
    StoreLoadU16(raw[0..2]);
    StoreLoadU32(raw[4..8]);
  }

  /** Re-encoding `ut_exit` of a decoded chunk gives its bytes back. */
  lemma ReencodedExit(raw: seq<uint8>)
    requires |raw| == UtmpSize
    ensures var n, r := EncodeNumbers(DecodeUtmp(raw)), raw[ExitOffset..AddrOffset];
      n[..2] == r[..2] && n[2..4] == r[2..4]
  {
    var r := raw[ExitOffset..AddrOffset];
    StoreLoadU16(raw[332..334]);
    assert r[..2] == raw[332..334];
    StoreLoadU16(raw[334..336]);
    assert r[2..4] == raw[334..336];
  }

  /** Re-encoding `ut_session` and `ut_tv` of a decoded chunk gives their bytes back. */
  lemma ReencodedSessionTime(raw: seq<uint8>)
    requires |raw| == UtmpSize
    ensures var n, r := EncodeNumbers(DecodeUtmp(raw)), raw[ExitOffset..AddrOffset];
      n[4..8] == r[4..8] && n[8..12] == r[8..12] && n[12..] == r[12..]
  {
    var r := raw[ExitOffset..AddrOffset];
    StoreLoadU32(raw[336..340]);
    assert r[4..8] == raw[336..340];
    StoreLoadU32(raw[340..344]);
    assert r[8..12] == raw[340..344];
    StoreLoadU32(raw[344..348]);
    assert r[12..] == raw[344..348];
  }

  /** Re-encoding the numeric fields of a decoded chunk gives their bytes back. */
  lemma ReencodedNumbers(raw: seq<uint8>)
    requires |raw| == UtmpSize
    ensures EncodeNumbers(DecodeUtmp(raw)) == raw[ExitOffset..AddrOffset]
  {
    var n := EncodeNumbers(DecodeUtmp(raw));
    var r := raw[ExitOffset..AddrOffset];
    ReencodedExit(raw);
    ReencodedSessionTime(raw);
    forall i | 0 <= i < 16 ensures n[i] == r[i] {
      if i < 2 {
        assert n[i] == n[..2][i] && r[i] == r[..2][i];
      } else if i < 4 {
        assert n[i] == n[2..4][i - 2] && r[i] == r[2..4][i - 2];
      } else if i < 8 {
        assert n[i] == n[4..8][i - 4] && r[i] == r[4..8][i - 4];
      } else if i < 12 {
        assert n[i] == n[8..12][i - 8] && r[i] == r[8..12][i - 8];
      } else {
        assert n[i] == n[12..][i - 12] && r[i] == r[12..][i - 12];
      }
    }
  }

  /** The four address words encode back to their bytes. */
  lemma ReencodedAddr(a: seq<uint8>)
    requires |a| == 16
    ensures EncodeAddr(AddrWords(a)) == a
  {
    StoreLoadU32(a[0..4]);
    StoreLoadU32(a[4..8]);
    StoreLoadU32(a[8..12]);
    StoreLoadU32(a[12..16]);
    assert a == a[0..4] + a[4..8] + a[8..12] + a[12..16];
  }

  /** The struct's view loses only the two padding bytes after `ut_type`. */
  lemma EncodeDecode(raw: seq<uint8>)
    requires |raw| == UtmpSize
    ensures EncodeUtmp(DecodeUtmp(raw)) == raw[..TypeOffset + 2] + [0, 0] + raw[PidOffset..]
  {
    var u := DecodeUtmp(raw);
    var e := EncodeUtmp(u);
    var r := raw[..TypeOffset + 2] + [0, 0] + raw[PidOffset..];
    EncodeSlices(u);
    ReencodedHead(raw);
    ReencodedNumbers(raw);
    ReencodedAddr(raw[AddrOffset..PadOffset]);
    var h := EncodeHead(u);
    assert e[0..2] == h[0..2] && e[2..4] == h[2..4] && e[4..8] == h[4..8];
    AgreeOn(e, raw, 0, 2);
    AgreeOn(e, r, 2, 4);
    AgreeOn(e, raw, 4, 8);
    AgreeOn(e, raw, 8, 40);
    AgreeOn(e, raw, 40, 44);
    AgreeOn(e, raw, 44, 76);
    AgreeOn(e, raw, 76, 332);
    AgreeOn(e, raw, 332, 348);
    AgreeOn(e, raw, 348, 364);
    AgreeOn(e, raw, 364, 384);
    forall i | 0 <= i < UtmpSize ensures e[i] == r[i] {
      if i < 2 || i >= 4 {
        assert r[i] == raw[i];
      }
    }
  }

  // ---------------------------------------------------------------------
  // Login-type labels (uwbdump.cpp:56-67)
  // ---------------------------------------------------------------------

  const TypeOfLogin: seq<string> := [
    "UNKNOWN", "RUN_LVL", "BOOT_TIME", "NEW_TIME", "OLD_TIME",
    "INIT_PROCESS", "LOGIN_PROCESS", "USER_PROCESS", "DEAD_PROCESS", "ACCOUNTING"]

  /** The range the read loop accepts; only such codes index TypeOfLogin. */
  predicate ValidLoginType(t: int) { 0 <= t <= 9 }

  /** The table has one entry per accepted code and the ten names differ. */
  lemma LabelsDistinct()
    ensures |TypeOfLogin| == 10
    ensures forall t :: 0 <= t < |TypeOfLogin| <==> ValidLoginType(t)
    ensures forall i, j :: 0 <= i < j < 10 ==> TypeOfLogin[i] != TypeOfLogin[j]
  {
  }

  /** Each code's label is the name of its macro, except that code 0 reads UNKNOWN. */
  lemma LabelsNameTheirCodes()
    ensures TypeOfLogin[UT_UNKNOWN] == "UNKNOWN"
    ensures TypeOfLogin[RUN_LVL] == "RUN_LVL" && TypeOfLogin[BOOT_TIME] == "BOOT_TIME"
    ensures TypeOfLogin[NEW_TIME] == "NEW_TIME" && TypeOfLogin[OLD_TIME] == "OLD_TIME"
    ensures TypeOfLogin[INIT_PROCESS] == "INIT_PROCESS" && TypeOfLogin[LOGIN_PROCESS] == "LOGIN_PROCESS"
    ensures TypeOfLogin[USER_PROCESS] == "USER_PROCESS" && TypeOfLogin[DEAD_PROCESS] == "DEAD_PROCESS"
    ensures TypeOfLogin[ACCOUNTING] == "ACCOUNTING"
  {
  }

  // ---------------------------------------------------------------------
  // intToIpV4 (uwbdump.cpp:69-83)
  // ---------------------------------------------------------------------

  /** `__builtin_bswap32`: the word with its four bytes in the opposite order. */
  function Bswap32(x: int): (y: int)
    requires IsU32(x)
    ensures IsU32(y)
  {
    var b := StoreU32(x);
    LoadU32([b[3], b[2], b[1], b[0]])
  }

  lemma Bswap32Reverses(x: int)
    requires IsU32(x)
    ensures StoreU32(Bswap32(x)) == [StoreU32(x)[3], StoreU32(x)[2], StoreU32(x)[1], StoreU32(x)[0]]
  {
    var b := StoreU32(x);
    StoreLoadU32([b[3], b[2], b[1], b[0]]);
  }

  /**
   * Byte-swap, then print the octets from the most significant down
   * (`(integer >> 24) & 0xFF` first).
   */
  function IntToIpV4(x: int): (s: string)
    requires IsU32(x)
  {
    var y := Bswap32(x);
    DottedQuad([y / 0x100_0000 % 0x100, y / 0x1_0000 % 0x100, y / 0x100 % 0x100, y % 0x100])
  }

  /** The address therefore reads in the order its bytes are stored: the lowest byte of `x` comes first. */
  lemma IntToIpV4Octets(x: int)
    requires IsU32(x)
    ensures IntToIpV4(x) == DottedQuad(StoreU32(x))
  {
    var y := Bswap32(x);
    Bswap32Reverses(x);
    var b := StoreU32(y);
    assert y / 0x100 / 0x100 == y / 0x1_0000;
    assert y / 0x100_0000 % 0x100 == b[3] && y / 0x1_0000 % 0x100 == b[2];
    assert y / 0x100 % 0x100 == b[1] && y % 0x100 == b[0];
  }

  /** Reading a dotted quad back into the word it was printed from. */
  function ParseIpV4(s: string): (r: Option<int>)
    ensures r.Some? ==> IsU32(r.value)
  {
    match ParseDottedQuad(s)
    case Some(o) => Some(LoadU32(o))
    case None => None
  }

  /** intToIpV4 loses nothing: its output determines its input. */
  lemma IntToIpV4RoundTrip(x: int)
    requires IsU32(x)
    ensures ParseIpV4(IntToIpV4(x)) == Some(x)
  {
    IntToIpV4Octets(x);
    DottedQuadRoundTrip(StoreU32(x));
  }

  lemma IntToIpV4Injective(x: int, y: int)
    requires IsU32(x) && IsU32(y)
    ensures IntToIpV4(x) == IntToIpV4(y) ==> x == y
  {
    IntToIpV4RoundTrip(x);
    IntToIpV4RoundTrip(y);
  }

  /** The word 0x0100007F, stored as the bytes 7F 00 00 01, prints as 127.0.0.1. */
  lemma IntToIpV4Loopback()
    ensures IntToIpV4(0x0100007F) == "127.0.0.1"
  {
    IntToIpV4Octets(0x0100007F);
    assert LoadU32([127, 0, 0, 1]) == 0x0100007F;
    StoreLoadU32([127, 0, 0, 1]);
    DottedQuadLoopback();
  }

  // ---------------------------------------------------------------------
  // One output row (uwbdump.cpp:174-186)
  // ---------------------------------------------------------------------

  /** The header line written before anything is read (uwbdump.cpp:134). */
  const Header := "Type_of_login,PID,Terminal,Id,User,Host,Exit_status,Session,Time,IPv4"

  /**
   * A character window as the row shows it. The source streams the `char`
   * array as a C string, which stops only at a zero byte and so runs past
   * the window when the window holds none (uwbdump.cpp:178-181; see
   * CppExport.CStringAt). This model is stricter than the source: it stops at
   * the window's end.
   */
  function WindowText(window: seq<uint8>): (s: string)
    ensures |s| <= |window|
    ensures forall i :: 0 <= i < |s| ==> s[i] as int == window[i] != 0
    ensures |s| < |window| ==> window[|s|] == 0
  {
    Chars(DecodeFixedText(window))
  }

  /**
   * The ten columns of a record's row: label, pid, line, id, user, host,
   * e_termination, session, tv_sec and the IPv4 form of the first address
   * word. `e_exit`, `tv_usec` and the other address words are not written.
   */
  function CppRow(u: Utmp): (row: seq<string>)
    requires WellFormed(u) && ValidLoginType(u.utType)
    ensures |row| == 10
  {
    [TypeOfLogin[u.utType],
     NatToDecimal(u.utPid),
     WindowText(u.utLine),
     WindowText(u.utId),
     WindowText(u.utUser),
     WindowText(u.utHost),
     IntToDecimal(u.utExit.eTermination),
     NatToDecimal(u.utSession),
     IntToDecimal(u.utTv.tvSec),
     IntToIpV4(u.utAddrV6[0])]
  }

  /**
   * Each column reads back to the field it came from: the label names the
   * type code, the numbers parse to their fields, the address to its word.
   */
  lemma CppRowReadsBack(u: Utmp)
    requires WellFormed(u) && ValidLoginType(u.utType)
    ensures var row := CppRow(u);
      (forall t :: ValidLoginType(t) ==> (row[0] == TypeOfLogin[t] <==> t == u.utType)) &&
      SignedValue(row[1]) == Some(u.utPid) &&
      SignedValue(row[6]) == Some(u.utExit.eTermination) &&
      SignedValue(row[7]) == Some(u.utSession) &&
      SignedValue(row[8]) == Some(u.utTv.tvSec) &&
      ParseIpV4(row[9]) == Some(u.utAddrV6[0])
  {
    LabelsDistinct();
    IntToDecimalRoundTrip(u.utPid);
    IntToDecimalRoundTrip(u.utExit.eTermination);
    IntToDecimalRoundTrip(u.utSession);
    IntToDecimalRoundTrip(u.utTv.tvSec);
    IntToIpV4RoundTrip(u.utAddrV6[0]);
  }

  /** `e_exit`, `tv_usec` and the last three address words do not reach the row. */
  lemma CppRowOmits(u: Utmp, eExit: int, tvUsec: int, words: seq<int>)
    requires WellFormed(u) && ValidLoginType(u.utType)
    requires IsI16(eExit) && IsI32(tvUsec)
    requires |words| == 3 && forall k :: 0 <= k < 3 ==> IsU32(words[k])
    ensures var v := u.(utExit := u.utExit.(eExit := eExit),
                        utTv := u.utTv.(tvUsec := tvUsec),
                        utAddrV6 := [u.utAddrV6[0]] + words);
      WellFormed(v) && CppRow(v) == CppRow(u)
  {
  }

  /** The line `main` writes for a row: the columns separated by commas. */
  function CsvLine(row: seq<string>): string
    requires |row| >= 1
  {
    Join(row, ',')
  }

  /** True when none of the row's four text columns holds a comma. */
  predicate TextHasNoComma(u: Utmp)
  {
    ',' !in WindowText(u.utLine) && ',' !in WindowText(u.utId) &&
    ',' !in WindowText(u.utUser) && ',' !in WindowText(u.utHost)
  }

  /** No label holds a comma. */
  lemma LabelsHaveNoComma(t: int)
    requires ValidLoginType(t)
    ensures ',' !in TypeOfLogin[t]
  {
  }

  /** Numbers are printed with digits and a minus sign only. */
  lemma DecimalHasNoComma(i: int)
    ensures ',' !in IntToDecimal(i)
  {
    NumericHasNoComma(IntToDecimal(i));
  }

  /** Addresses are printed with digits and dots only. */
  lemma IpV4HasNoComma(x: int)
    requires IsU32(x)
    ensures ',' !in IntToIpV4(x)
  {
    IntToIpV4Octets(x);
    DottedQuadParts(StoreU32(x));
    NumericHasNoComma(IntToIpV4(x));
  }

  /**
   * Nothing is quoted, so a line splits back into its ten columns when no
   * text window shows a comma; the other columns never hold one.
   */
  lemma CsvLineSplits(u: Utmp)
    requires WellFormed(u) && ValidLoginType(u.utType) && TextHasNoComma(u)
    ensures Split(CsvLine(CppRow(u)), ',') == CppRow(u)
  {
    var row := CppRow(u);
    LabelsHaveNoComma(u.utType);
    DecimalHasNoComma(u.utPid);
    DecimalHasNoComma(u.utExit.eTermination);
    DecimalHasNoComma(u.utSession);
    DecimalHasNoComma(u.utTv.tvSec);
    IpV4HasNoComma(u.utAddrV6[0]);
    assert forall k :: 0 <= k < 10 ==> ',' !in row[k];
    SplitJoin(row, ',');
  }
}
