# uwbdump in Dafny

uwbdump turns the binary login-accounting files of Unix systems (utmp, wtmp,
btmp) into CSV. Each file is a sequence of fixed-size 384-byte records. The
repository has two independent decoders, and this project models both of
them separately:

- **The C++ decoder** (`uwbdump.cpp`).
  - `struct utmp` with natural alignment: a 2-byte `ut_type`, two padding bytes, then `ut_pid`, the four character windows, `ut_exit`, `ut_session`, `ut_tv`, `ut_addr_v6` and `pad`.
  - `main` writes the header line first.
  - It rejects a file whose length is not a whole number of records.
  - It reads every record into one `entry` buffer and stops the run at the first `ut_type` outside 0..9.
  - Only then does it write one ten-column line per record. That line holds the `TypeOfLogin` label, the numbers, the text windows and `intToIpV4` of the first address word (byte-swap, then octets high to low).
- **The Python decoder** (`uwbdump.py`).
  - The packed `UtmpLoginRecords` structure: a 32-bit type and terminal id, with no padding.
  - The `TypesOfLogin` dictionary, where code 0 is `EMPTY UT_UNKNOWN`.
  - The address column: `inet_ntoa` of the zero-truncated `ip_address` value, and the raw bytes when that value is not 4 bytes long.
  - The `utmp_to_csv` loop. It writes the header row, then refills one buffer with `readinto` until a read returns 0 and writes a thirteen-value row per fill. It has no size check. A short last read leaves the previous record's bytes in the rest of the buffer. An unknown type code raises `KeyError` at that row, after the earlier rows were written.

Modules:

- `Wrappers`: `Option` and `Result`.
- `Bytes`: little-endian loads and stores, and the two's-complement views of `short` and `int32_t`.
- `Text`: fixed-width C text, decimal printing and reading, split and join, dotted quads.
- `CppLayout`: the struct, its encoding, the label table, `intToIpV4` and the row.
- `CppExport`: the size check, the read loop, the write loop, the outcome of `main`, and the `ut_id` over-read.
- `PyLayout`: the packed record, the label dictionary, the address column and the row.
- `PyExport`: `readinto` on a buffer array, the `utmp_to_csv` loop, and its reference export.

The input file is a byte sequence. The C++ output is a sequence of lines. The Python output is a sequence of rows of cells, plus the `KeyError` that stopped it, if any.

## Model

| member | source | states |
|---|---|---|
| CppLayout.NaturalLayout | uwbdump.cpp:39-53 | each field offset is the previous end rounded up to the field's alignment (2 for `short` and `exit_status`, 4 for 32-bit words, `ut_tv` and `ut_addr_v6`, 1 for chars): `ut_pid` at 4 after two padding bytes, `ut_exit` at 332, `ut_addr_v6` at 348, and the record is 384 bytes |
| CppLayout.DecodeUtmp | uwbdump.cpp:163 | reading a 384-byte chunk into `struct utmp` gives fields that each fit their C type (`short`, `uint32_t`, `int32_t`, the window widths) |
| CppLayout.DecodeEncode | uwbdump.cpp:39-53 | decoding the bytes of any well-formed record gives that record back |
| CppLayout.EncodeDecode | uwbdump.cpp:39-53 | re-encoding a decoded chunk reproduces every byte except the two padding bytes after `ut_type`, which the struct does not keep |
| CppLayout.LabelsDistinct | uwbdump.cpp:56-67 | the ten labels are pairwise distinct |
| CppLayout.LabelsNameTheirCodes | uwbdump.cpp:9-18 | each code constant indexes the label of its own name (UT_UNKNOWN reads UNKNOWN), e.g. 7 gives USER_PROCESS and 8 gives DEAD_PROCESS |
| CppLayout.Bswap32 | uwbdump.cpp:75 | `__builtin_bswap32` of a 32-bit word is a 32-bit word; Bswap32Reverses states what it holds |
| CppLayout.IntToIpV4 | uwbdump.cpp:69-83 | the swapped word printed as four decimal octets, high octet first, joined by dots; IntToIpV4Octets, IntToIpV4RoundTrip and IntToIpV4Injective state what the text holds |
| CppLayout.Bswap32Reverses | uwbdump.cpp:75 | the byte-swapped word stores its four bytes in reverse order |
| CppLayout.IntToIpV4Octets | uwbdump.cpp:69-83 | after the swap, printing high octet first yields the dotted quad of the word's stored bytes in storage order |
| CppLayout.IntToIpV4RoundTrip | uwbdump.cpp:69-83 | parsing the printed address and re-packing the octets gives the word back |
| CppLayout.IntToIpV4Injective | uwbdump.cpp:69-83 | two different words never print as the same address |
| CppLayout.IntToIpV4Loopback | uwbdump.cpp:69-83 | the word 0x0100007F prints as 127.0.0.1 |
| CppLayout.WindowText | uwbdump.cpp:178-181 | a window's text is never longer than the window, each character is the non-zero byte at the same position, and the text stops only at the window's end or just before its first zero byte |
| CppLayout.CppRow | uwbdump.cpp:176-185 | a record with a valid type has exactly ten columns; CppRowReadsBack and CppRowOmits state what they hold |
| CppLayout.CppRowReadsBack | uwbdump.cpp:176-185 | the label column matches the label of exactly one code, the record's type; pid, `e_termination`, session and `tv_sec` read back to their fields; the address column parses back to `ut_addr_v6[0]` |
| CppLayout.CppRowOmits | uwbdump.cpp:182-185 | changing `e_exit`, `tv_usec` or address words 1..3 leaves the row unchanged |
| CppLayout.CsvLineSplits | uwbdump.cpp:176-185 | when no text window holds a comma, the line splits at commas back into its ten columns |
| CppExport.Entries | uwbdump.cpp:150-172 | the reference result of reading a file: on success, every entry is a well-formed record with a type in 0..9; ReadEntries, SizeMismatchRejected, EntriesAppend and InvalidRecordRejectsFile state which files succeed and with which entries |
| CppExport.Message | uwbdump.cpp:153-168 | the messages of the two decoding errors (file size, login type), printed at uwbdump.cpp:156 and uwbdump.cpp:167, start with `File error: ` |
| CppExport.ReadEntries | uwbdump.cpp:150-172 | the size check and the fail-fast read loop return exactly the reference result `Entries` of the file |
| CppExport.WriteRows | uwbdump.cpp:174-186 | one line per entry, in order, line k being the comma-joined row of entry k |
| CppExport.Dump | uwbdump.cpp:134-186 | the header line is always first; on an error, exit code 1, that error's message and the header alone; on success, exit code 0 and one line per record after the header |
| CppExport.SizeMismatchRejected | uwbdump.cpp:150-158 | a length that is not a multiple of 384 fails with the size error, whatever the bytes |
| CppExport.EmptyFileAccepted | uwbdump.cpp:154-172 | an empty file is accepted with no entries, so only the header is written |
| CppExport.EntriesAppend | uwbdump.cpp:160-172 | two files laid end to end are accepted exactly when both are, and the entries are the first file's followed by the second's |
| CppExport.InvalidRecordRejectsFile | uwbdump.cpp:165-169 | one record with a type outside 0..9, at any position, rejects the whole file |
| CppExport.SingleRecordFile | uwbdump.cpp:163-172 | the bytes of one well-formed record with a valid type are read as exactly that record |
| CppExport.UserProcessFile | uwbdump.cpp:163-172 | a file with one USER_PROCESS record is accepted with that record |
| CppExport.UserProcessRow | uwbdump.cpp:176-185 | that record's row starts with USER_PROCESS and 1234 and ends with 127.0.0.1 |
| CppExport.CStringAt | uwbdump.cpp:178-181 | as written, streaming a window runs to the first zero byte of the record, which can lie beyond the window |
| CppExport.IdColumnOverRead | uwbdump.cpp:179 | as written, a zero-free `ut_id` is printed followed by the text of `ut_user`, and is longer than 4 bytes when the user is not empty |
| CppExport.IdColumnOverReadExample | uwbdump.cpp:179-180 | as written, id `tty1` with user `root` prints `tty1root` in the id column, and the bounded read prints `tty1` |
| Text.DecodeFixedText | uwbdump.py:42-52 | a `c_char` window's value is a prefix of the window with no zero byte, stopping just before the first zero byte |
| Text.FixedTextUnique | uwbdump.py:42-52 | those three properties determine the value |
| Text.NatToDecimalRoundTrip | uwbdump.cpp:177 | reading the printed digits of a number gives the number |
| Text.DecimalRoundTrip | uwbdump.cpp:177 | a digit string without a leading zero is exactly the printing of its value |
| Text.IntToDecimalRoundTrip | uwbdump.cpp:182 | a printed signed number reads back to itself |
| Text.DottedQuadParts | uwbdump.cpp:81-82 | a dotted quad splits at its dots into exactly the four octet decimals and holds only digits and dots |
| Text.DottedQuadRoundTrip | uwbdump.cpp:81-82 | parsing a dotted quad gives its four octets back |
| Text.SplitJoin | uwbdump.cpp:176-185 | fields without the separator, joined by it, split back into themselves |
| PyLayout.PackedLayout | uwbdump.py:37-52 | each packed field starts where the previous one ends, and the record is 384 bytes, as in C++ |
| PyLayout.Decode | uwbdump.py:37-52 | reading a 384-byte buffer as `UtmpLoginRecords` gives fields that each fit their ctypes width; DecodeEncode and EncodeDecode make it a bijection on buffers |
| PyLayout.DecodeEncode | uwbdump.py:37-52 | decoding the bytes of any well-formed record gives the record back |
| PyLayout.EncodeDecode | uwbdump.py:37-52 | encoding a decoded buffer gives every byte back: the packed layout has no padding |
| PyLayout.TypeSpansCppPadding | uwbdump.py:40 | the 32-bit type is the C++ `ut_type` plus the two padding bytes, and both decoders read the same code when those bytes are zero and the short is not negative |
| PyLayout.TypesOfLoginTable | uwbdump.py:26-35 | the keys are exactly 0..9, the names are distinct, and they equal the C++ labels except at code 0 |
| PyLayout.InetNtoa | uwbdump.py:101 | `inet_ntoa` succeeds exactly on 4-byte values |
| PyLayout.IpColumnCases | uwbdump.py:100-103 | the column is a dotted quad exactly when the first four address bytes are non-zero and the fifth is zero, and it then equals the C++ column for that word; otherwise it is the bytes before the first zero |
| PyLayout.IpColumn | uwbdump.py:100-103 | `inet_ntoa` of the zero-truncated value, or that value when it raises; IpColumnCases states when each happens |
| PyLayout.IpColumnLoopback | uwbdump.py:100-103 | the stored loopback address 7F 00 00 01 is written as the single byte 7F |
| PyLayout.Row | uwbdump.py:105-117 | the row fails exactly when the type is not a key, and the failure carries that key; otherwise it has 13 values, as many as the header |
| PyLayout.RowTextWithinWindows | uwbdump.py:105-117 | each of the four text values is its window up to the first zero byte, or the whole window when it holds none |
| PyExport.ReadInto | uwbdump.py:97 | `readinto` reports min(buffer size, bytes left) and overwrites only that many bytes at the front of the buffer |
| PyExport.Refill | uwbdump.py:97 | the buffer after a `readinto` keeps its size: the next bytes of the file over its front, the old bytes behind them |
| PyExport.ExportFile | uwbdump.py:94-117 | what the loop writes after the header, from the zero buffer on; UtmpToCsv, WholeRecords and ShortTail state what it holds |
| PyExport.UtmpToCsv | uwbdump.py:81-117 | the header row first, then exactly the rows, and exactly the stopping error, of the export function `ExportFile` |
| PyExport.RowsOfRecords | uwbdump.py:96-117 | in the reference export, row k is the row of record k; it stops only at a failing record and carries that record's `KeyError` |
| PyExport.WholeRecordsFrom | uwbdump.py:96-117 | with whole records left, the buffer's earlier contents never show in the output |
| PyExport.WholeRecords | uwbdump.py:94-117 | a file of whole records exports as its records' rows in file order, up to the first unknown type |
| PyExport.EmptyFileExport | uwbdump.py:96-99 | an empty file gives no rows and no error |
| PyExport.WholeRecordsThen | uwbdump.py:94-117 | the whole records of a stretch export as the reference export; unless one fails, the loop goes on after them with the last of them in the buffer |
| PyExport.ShortTail | uwbdump.py:94-117 | for any file that is not a whole number of records: the whole records export as the reference export; unless one fails, the tail then gives one more row, decoded from the tail over the rest of the last whole record (or of the zero buffer), or that row's `KeyError` |
| PyExport.ShortTailReusesBuffer | uwbdump.py:95-97 | after a full record, a short tail's row is decoded from the tail followed by the rest of the previous record |
| PyExport.NoSizeCheck | uwbdump.py:94-99 | a one-byte file holding 7 gives one USER_PROCESS row, where the C++ decoder rejects the same file |

## Left out

- Command-line handling is not modelled: `getopt`, help and missing-file checks (uwbdump.cpp:95-127), `argparse` and `input()` (uwbdump.py:119-142).
- Output file naming is not modelled. `DateTime()` reads the wall clock and only names the output file.
- Stream I/O is not modelled. Opening, seeking, closing, the open-failure messages and the `try`/`catch` are left out. The input is a byte sequence, the output a sequence of lines or rows.
- `unix_to_human` is library date formatting. The timestamp cell keeps the raw seconds.
- `folder_scan` walks the file system and is never called.
- `.decode("utf-8")` is a library codec. Text cells keep their bytes. A window that is not valid UTF-8 raises `UnicodeDecodeError` in the source and ends the export; that error path is not modelled.
- Neither side's CSV quoting is modelled. The C++ lines are joined with commas and nothing is escaped (see CppLayout.CsvLineSplits for when that stays unambiguous). Python's `csv.writer` quoting with the `;` delimiter, and the text form of `bytes` and `int` values, are not modelled.
- The C++ raw-struct read assumes a little-endian host; big-endian hosts are not modelled.
- CppExport.CStringAt: past the end of the record, the source keeps reading whatever memory follows. The model stops at the record's end.
- CppLayout.WindowText: the four C++ text columns are modelled with the bounded read. Streaming the windows as C strings can run past a window with no zero byte. That behaviour is modelled separately by CppExport.CStringAt and is the finding below.

## Findings

| source | as written | input that shows it | evidently intended | confidence | as-written member | corrected member |
|---|---|---|---|---|---|---|
| uwbdump.cpp:179 | `ut_id` (`char[4]`, usually not zero-terminated) is streamed as a C string, so printing runs on into `ut_user` and beyond. The same holds for `ut_line`, `ut_user` and `ut_host` when they are full. | `ut_id` = `tty1`, `ut_user` = `root` followed by a zero byte: the Id column is `tty1root` | the Id column holds at most the four bytes of `ut_id`, up to its first zero byte | not executed | CppExport.IdColumnOverRead | CppLayout.WindowText |
