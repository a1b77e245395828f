# SMA inverter Bluetooth link layer, modelled in Dafny

This project models the link layer of `smatool`, a program that gets logged
data from SMA solar inverters over a Bluetooth RFCOMM socket. It covers:

- **The send path.**
  - The outgoing frame `fl`/`cc` is built byte by byte.
  - The `$CRC` token appends the 16-bit FCS of Appendix C.2 of RFC 1662
    (`pppfcs16`, `tryfcs16`).
  - It then stuffs the frame (`add_escapes`) and sets its length byte
    (`fix_length_send`).
- **The receive path.**
  - `read_bluetooth` reads one frame: the 3-byte header, the body, the echo
    test, the terminator test and the unescape loop.
  - `fix_length_received` then repairs the frame's length byte.
  - `strip_escapes` is the send side's inverse.
- **Reassembly and decoding.**
  - `ReadStream` joins a multi-frame answer into one payload.
  - `ConvertStreamtoInt`/`Long`/`Time` turn little-endian fields into
    numbers, with the all-0xff "no value" rule.
- **Pieces of the script interpreter in `main`.**
  - The tokens:
    - `conv` (hex token to byte);
    - `select_str` (token lookup);
    - `$PASSWORD`;
    - `$TIME`/`$TMPL`/`$TMMI`.
  - The stride of 28 or 40 bytes for spot-value records.
  - The 12-byte archive records and their 300-second gap check.
  - The `R` directive's wait for a matching reply.
  - The failure counter with its checkpoints and its limits of 60, 10 and 3.

Modules, one per part of the source:

| module | file | models |
|---|---|---|
| `Bytes` | bytes.dfy | byte helpers: truncation to `unsigned char` (`LowByte`), values |
| `Fcs16` | fcs16.dfy | `fcstab`, `pppfcs16`, the FCS residue |
| `Escapes` | escapes.dfy | `add_escapes`, `strip_escapes` on arrays |
| `LengthFix` | lengthfix.dfy | `fix_length_received`, `fix_length_send` |
| `Link` | link.dfy | `read_bluetooth` |
| `SendFrame` | sendframe.dfy | the `fl`/`cc` buffer as a class, `tryfcs16`, `$CRC` |
| `Decode` | decode.dfy | `ConvertStreamtoInt`/`Long`/`Time` |
| `Stream` | stream.dfy | `ReadStream` |
| `Records` | records.dfy | `$POW`/`$INVERTERDATA` strides, `$ARCHIVEDATA1` records |
| `Script` | script.dfy | `conv`, `select_str`, `$PASSWORD`, `$TIME` |
| `Session` | session.dfy | the `R` directive, failures and checkpoints |

Code that works in place keeps its form:

- `add_escapes`, `strip_escapes`, `fix_length_*` and `read_bluetooth` are
  methods over `array<bv8>`.
- `fl`/`cc` is a class.
- The interpreter's failure state is a class.

Each such method is proved equal to a function over sequences. The
properties are then proved as lemmas about those functions.

The socket is an input value. Each call of `read_bluetooth` gets a
`LinkInput`: either `Timeout`, or `Frame(header, body)` holding the bytes
that `recv` returns. A run that reads several frames gets a finite list of
them.

## Model

| member | source | states |
|---|---|---|
| Fcs16.TableFromPolynomial | smatool.c:114-149 | every entry of the literal `fcstab` is the entry the reversed polynomial 0x8408 generates, so the table is the standard one of RFC 1662 |
| Fcs16.PppFcs16 | smatool.c:152-165 | the `while (len--)` loop computes the FCS fold of the first `len` bytes |
| Fcs16.FcsAppend | smatool.c:152-165 | the FCS of `a + b` is the FCS of `b` started from the FCS of `a` |
| Fcs16.Trailer | smatool.c:262-277 | the two bytes appended are the complemented FCS, least significant byte first |
| Fcs16.TrailerResidue | smatool.c:262-277 | folding any FCS's own trailer into it gives the good residue 0xf0b8 |
| Fcs16.GoodResidue | smatool.c:262-277 | a frame followed by the trailer of its FCS checks to PPPGOODFCS16 |
| Escapes.AddEscapes | smatool.c:186-204 | the in-place loop leaves exactly the stuffed frame (bytes before 19 untouched) and returns its length; nothing past it changes |
| Escapes.StripEscapes | smatool.c:170-181 | the in-place loop leaves exactly the unstuffed frame, which is no longer than the input; bytes from `len` on stay |
| Escapes.EscapeBytesLength | smatool.c:186-204 | stuffing adds one byte per byte that needs an escape |
| Escapes.EscapeBytesClean | smatool.c:186-204 | the stuffed output holds none of 0x7e, 0x11, 0x12 or 0x13 unescaped, and every 0x7d leads an escape pair |
| Escapes.UnescapeEscapeBytes | smatool.c:170-204 | strip_escapes undoes the stuffing of any byte sequence |
| Escapes.EscapeRoundTrip | smatool.c:170-204 | when the 19 unstuffed header bytes hold no 0x7d, strip_escapes gives back the frame add_escapes was given |
| Escapes.UnescapeLength | smatool.c:170-181 | the unstuffed length is the input length less one per escape pair, and less one more for a lone trailing 0x7d |
| LengthFix.FixLengthReceived | bluetooth.c:31-51 | the in-place repair gives exactly the repaired frame |
| LengthFix.RepairFrame | bluetooth.c:31-51 | only bytes 1 and 3 of the frame can change |
| LengthFix.RepairAgreeingLength | bluetooth.c:37 | a length byte equal to `len` leaves the frame unchanged |
| LengthFix.RepairSentinel | bluetooth.c:40 | a companion byte 0x13 or 0x14 leaves the frame unchanged |
| LengthFix.RepairSetsLength | bluetooth.c:41-46 | otherwise the length byte becomes `len`, and lengths 0x52, 0x5a, 0x66, 0x6a get companions 0x2c, 0x24, 0x1a, 0x14 |
| LengthFix.RepairKeepsSum | bluetooth.c:38-47 | for other lengths the new length plus companion equals the old sum modulo 256 |
| LengthFix.RepairIdempotent | bluetooth.c:31-51 | a second repair with the same length changes nothing |
| LengthFix.FixLengthSend | smatool.c:209-257 | the in-place fix succeeds exactly when the function does and then leaves its frame |
| LengthFix.SendTableDomain | smatool.c:225-251 | the send table knows exactly the lengths 0x3a..0x42 and 0x52..0x62 |
| LengthFix.FixedForSendSpec | smatool.c:209-257 | the fix succeeds exactly for `len + 1` in the table, then sets byte 1 to `len + 1` and byte 3 from the table, and nothing else |
| LengthFix.TablesAgree | smatool.c:225-251 | where both tables know a length, they give the same companion byte |
| LengthFix.ReceiveOnlyLengths | bluetooth.c:42-46 | the receive table knows exactly two lengths the send table does not: 0x66 and 0x6a |
| Link.LinkRead | bluetooth.c:54-140 | the buffer keeps its 1024 bytes, `*rr` fits it and never exceeds a length byte of 3 or more, and a terminated frame is a successful read of at least 3 bytes |
| Link.ReadBluetooth | bluetooth.c:54-140 | the in-place read leaves status, buffer, `*rr` and `*terminated` as the read function says |
| Link.CopyHeader | bluetooth.c:72-81 | the three header bytes go to the front of the buffer and the rest stays |
| Link.UnescapeBody | bluetooth.c:112-135 | the loop writes the unescaped body behind the header, `*rr` counts it, and the buffer beyond it stays |
| Link.EscapedValueIsXor | bluetooth.c:114-127 | the three branches of the switch after 0x7d are all the xor with 0x20 |
| Link.ReadUnescapeLength | bluetooth.c:112-135 | the unescaped length is the body length less one per escape pair |
| Link.ReadUnescapeIsStrip | bluetooth.c:112-135 | the read side's unescape equals strip_escapes, except that a lone trailing 0x7d yields 0x20 instead of nothing |
| Link.LinkReadTimeout | bluetooth.c:82-88 | a timeout returns -1 with `*rr` 0 and a zeroed 1024-byte buffer |
| Link.LinkReadEmptyBody | bluetooth.c:72-99 | an empty body leaves the header in front of the old bytes with `*rr` 3 and no repair |
| Link.LinkReadEcho | bluetooth.c:103-107 | the call aborts exactly when the body has `cc` bytes, the frame last sent has at least `cc` bytes, and the buffer's first `cc` bytes equal it |
| Link.LinkReadFrameCounts | bluetooth.c:99-139 | a frame read returns 0, with `*rr` = 3 + body less escape pairs, within the buffer and at most a length byte of 3 or more, and `*terminated` iff the last body byte is 0x7e |
| Link.LinkReadFrameBytes | bluetooth.c:99-139 | header bytes 0 and 2 are kept, bytes 4..rr are the unescaped body, and the buffer past `*rr` is what it was |
| Link.LinkReadFrameLengthByte | bluetooth.c:136 | an agreeing length byte or a sentinel companion leaves bytes 1 and 3 as read; otherwise byte 1 becomes `*rr` truncated to a byte and byte 3 the repaired companion, so below 256 the length byte is `*rr` |
| SendFrame.SendBuffer.constructor | smatool.c:112 | an empty, zero-filled 1024-byte buffer |
| SendFrame.SendBuffer.Append | smatool.c:1584-1585 | appends one byte to the frame and touches nothing past it |
| SendFrame.SendBuffer.TryFcs16 | smatool.c:262-277 | appends the complemented FCS of the given range, low byte first, and grows `cc` by two |
| SendFrame.SendBuffer.Crc | smatool.c:1614-1618 | the buffer afterwards holds the frame with FCS, stuffing and length fix, and `ok` is false exactly where fix_length_send aborts |
| SendFrame.CrcFrameChecks | smatool.c:1614-1618 | unstuffing bytes 19.. of the frame sent gives back payload plus FCS trailer, and that checks to 0xf0b8 |
| SendFrame.CrcFrameHeader | smatool.c:1614-1618 | header bytes 0, 2 and 4..18 are sent as built, and the length byte is the sent length plus one |
| Decode.ConvertStream | smatool.c:640-656 | the loop returns the little-endian value of the field, or 0 when every byte is 0xff |
| Decode.WeightedSumIsLittleEndian | smatool.c:640-656 | the loop's sum of `b[i]*256^i`, first byte first, is the little-endian number |
| Decode.StreamValueRange | smatool.c:640-656 | a decoded n-byte field is 0 for "no value" and otherwise below 256^n - 1 |
| Decode.LittleEndianMaximum | smatool.c:530-546 | only the all-0xff field spells 256^n - 1, so that value cannot be told from "no value" |
| Decode.LittleEndianRoundTrip | smatool.c:659-675 | encoding a value below 256^n in n bytes and decoding gives the value back |
| Decode.ToLittleEndianOfField | smatool.c:659-675 | decoding a field and re-encoding in as many bytes gives the field back |
| Decode.TwoByteField | smatool.c:720 | the two-byte `togo` field is low + 256 * high, unless both bytes are 0xff |
| Decode.FourByteField | smatool.c:659-675 | a four-byte time is the weighted sum of its bytes |
| Stream.CopyPiece | smatool.c:729-742 | the inner loop appends the payload bytes of the current frame from the start offset |
| Stream.ReadStream | smatool.c:713-755 | `togo` is the field at offset 43, `datalen` is the payload length, and payload and final link state are the reassembly function's |
| Stream.ReassembleRead | smatool.c:727-752 | one outer-loop read: an echo ends reassembly, otherwise the piece is followed by what the next frame brings from offset 18 |
| Stream.PieceBytes | smatool.c:729-742 | a piece is the frame from its start up to its end (3 bytes less when terminated), never an index past 500 |
| Stream.NoCutOnLinkFrames | smatool.c:730-732 | the cut at 500 never shortens a frame whose length byte is 3 or more |
| Stream.LaterInputUnread | smatool.c:727-752 | reassembly stops at the first terminated frame or echo; later inputs are not read |
| Stream.CompleteIffTerminated | smatool.c:727-752 | reassembly ends complete exactly when the last frame copied was terminated |
| Stream.SingleFrame | smatool.c:722-751 | an answer already terminated is the first frame's payload from offset 59 alone |
| Stream.NextFrame | smatool.c:744-748 | an unterminated frame's payload is followed by the next frame's payload from offset 18 |
| Script.Conv | smatool.c:280-325 | conv returns 16 times the first digit's value plus the second's, reduced to a byte, a one-character token reading the NUL as its second digit |
| Script.DigitValueOfHex | smatool.c:285-321 | conv reads each hex digit of either case as its value |
| Script.ConvHexPair | smatool.c:280-325 | on two hex digits conv returns 16 * high + low |
| Script.ConvRoundTrip | smatool.c:280-325 | conv inverts the two-digit hex rendering of every byte |
| Script.LowByteAdd | smatool.c:322 | storing the partial sum in the `unsigned char` does not change the final byte |
| Script.SelectStr | smatool.c:418-427 | the result is the index of the word in the token list, and -1 exactly when the word is not a token |
| Script.AcceptedDistinct | smatool.c:79-108 | no token is listed twice, so the index found is the only one |
| Script.PasswordBytes | smatool.c:1754-1766 | the loop produces the field the source sends: each of the first twelve characters with its `% 0xff` encoding, padded with 0x88 to twelve bytes |
| Script.PasswordFieldsAgree | smatool.c:1754-1766 | the field sent equals the intended mod-256 field exactly when none of the first twelve characters lies in 'w'..DEL |
| Script.PasswordModulus | smatool.c:1761 | the `% 0xff` encoding differs from the intended mod-256 encoding exactly for 'w'..DEL, where it is one higher |
| Script.PasswordModulusWitness | smatool.c:1761 | 'w' is sent as 0x00 instead of 0xff, and DEL and 0x80 are both sent as 0x08 |
| Script.PasswordByteDecodes | smatool.c:1754-1766 | subtracting 0x88 from an encoded byte gives the character back, and NUL encodes as the pad 0x88 |
| Script.PasswordByteInjective | smatool.c:1754-1766 | distinct characters encode to distinct bytes |
| Script.PasswordFieldInjective | smatool.c:1754-1766 | the field determines a password of up to twelve characters |
| Script.TimeBytes | smatool.c:1576-1610 | the time token's bytes are the 32-bit time, least significant byte first |
| Script.HexStringLength | smatool.c:1579 | `%x` of a number from 16^(n-1) to 16^n - 1 has n digits |
| Script.TimePair | smatool.c:1580-1586 | the two digits the loop passes to conv make byte `k` of the little-endian encoding |
| Script.TimeRoundTrip | smatool.c:659-675 | ConvertStreamtoTime reads the 32-bit time back, except 0xffffffff, which reads as 0 |
| Records.PowerRecords | smatool.c:1862-1897 | the stride is chosen from the type byte, and the records read are those at offsets `k * gap` below `datalen`, every one |
| Records.StrideChoice | smatool.c:1864-1871 | the stride is 40 exactly for 0x08/0x10, 28 exactly for 0x40/0x00, and otherwise the previous stride |
| Records.WholeRecords | smatool.c:1872 | a payload of `m` whole strides yields exactly `m` records |
| Records.ArchivePage | smatool.c:1971-2012 | the record loop over one page keeps the records, last time and error flag that the page scan gives |
| Records.Store | smatool.c:1973-1975 | the record buffer holds one more byte of the current record and nothing beyond it changes |
| Records.TakeRecord | smatool.c:1976-2011 | the record's time becomes `idate`, the record is kept exactly when it passes the 300 s check, and the scan moves past it or stops |
| Records.RecordsOfIndex | smatool.c:1971-1976 | a page holds `datalen/12` complete records, record `k` at offset `12k` |
| Records.DateAcceptedIff | smatool.c:1977-1999 | a record passes exactly when it is 300 s after a nonzero predecessor, or when there is none yet |
| Records.ScanFromSpec | smatool.c:1971-2012 | the records kept are the longest run that passes the check, and there is an error exactly when a record is left after the run, whose time becomes `idate` |
| Records.ScanPageSpec | smatool.c:1971-2012 | the records kept are the page's first records with their time and total bytes, and there is an error exactly when a complete record follows them |
| Records.ScanPageGaps | smatool.c:1995-1999 | kept times on a page are 300 s apart, and the first is 300 s after the starting time if that is nonzero |
| Records.PartialRecordIgnored | smatool.c:1971-2012 | a partial record at the end of a page changes nothing |
| Records.ArchiveData | smatool.c:1963-2032 | the page loop gives the records and error flag of the scan over all pages, carrying `idate` from page to page and the error flag `main` already holds; the records do not depend on that flag, and it ends set exactly when it was set before or some page has a bad gap |
| Records.ErrorCarried | smatool.c:1281 | the flag a directive starts with leaves the records alone and only ever adds to the error |
| Records.ErrorSticks | smatool.c:1996-1998 | once set, the error flag stays set over later pages |
| Records.ErrorIffSomePage | smatool.c:1963-2032 | the directive reports no error exactly when no page has a bad gap |
| Session.ReplyMatchesPointwise | smatool.c:1534 | the reply test compares bytes 4..cc-1 one by one |
| Session.ReplyIgnoresRest | smatool.c:1534 | bytes 0..3, and bytes past `cc` in the buffer, do not affect the reply test |
| Session.WaitFor | smatool.c:1503-1541 | the buffer keeps its 1024 bytes through the wait |
| Session.WaitForReply | smatool.c:1503-1541 | the loop's outcome, read count and buffer are those of the wait function |
| Session.WaitEndsAtFirst | smatool.c:1503-1541 | the wait takes at most one read per input, ends Found only on a matching buffer, and runs out only when no read fails or matches |
| Session.Interpreter.constructor | smatool.c:1277 | the counter, line, checkpoint and archive list start empty |
| Session.Interpreter.Checkpoint | smatool.c:2095-2117 | a checkpoint label records the current line and leaves the counter alone |
| Session.Interpreter.Fail | smatool.c:1507-1521 | a failure goes back to the checkpoint, drops the archive records and increments the counter; it exits exactly when the counter exceeds that place's limit |
| Session.RunFailures | smatool.c:1507-1521 | a sequence of failures ends the program exactly when some failure's count exceeds its limit, and then at the first such one |
| Session.SurvivorBounds | smatool.c:2015-2030 | a running program has met at most 60 failures, a `$TIMESTRING` failure survives only among the first ten, an archive read failure only among the first three |
| Session.ExitAfterLimit | smatool.c:1519 | 61 failures end the program, whatever their places |

## Left out

- Sockets, `select` and `recv` are replaced by `LinkInput` values. A real
  `recv` may return fewer body bytes than asked for; the model lets the
  input choose how many, up to the header's length byte. The second
  `FD_ISSET` test in `read_bluetooth` re-tests the same descriptor set. Its
  timeout branch is therefore modelled only as the first one.
- `abort()` on an echo is modelled as the status `EchoAbort`, and the wait
  and reassembly stop there. Process termination itself is not modelled.
- Stream.ReadStream: the source waits for ever on repeated timeouts. The
  model reads a finite list of inputs and ends with `OutOfInput`. The
  dynamic `realloc` of the payload is a growing sequence.
- ConvertStreamToFloat (smatool.c:549-565) and all floating-point
  arithmetic are not modelled. `pow` in the integer decoders only ever
  yields exact integers, so the decoders sum integers. An archive total is
  kept as its 8 raw bytes.
- Records.ArchivePage keeps only each record's time and total bytes. The
  inverter name, serial number and current power stored with each record
  are not modelled, nor are `localtime`, logging and the `ptotal`/`gtotal`
  float bookkeeping.
- Records.ArchiveData takes the pages as already reassembled payloads. The
  `togo` test and the `read_bluetooth` call between pages are not part of
  this operation; that read's failure is the `ArchiveRead` failure of
  `Session`.
- Records.PowerRecords requires every record the loop starts to fit in
  the payload. The source reads the value bytes of a last, cut-off record
  past `datalen`.
- Records.PowerRecords returns the key bytes and time of each record. The
  value decoding, the description lookup and the output are not modelled.
- Script.TimeBytes requires the time word to be at least 0x10000000 (eight
  hex digits, every time after 1978). For a shorter text the loop still
  reads `tt[0..7]`: the NUL `sprintf` writes and the characters behind it,
  which are the `'0'`s `tt` starts with (smatool.c:1308) or digits left by
  an earlier, longer time. The model does not follow that buffer.
- Script.TimeBytes takes the time (`reporttime`, or `reporttime ± 1` for
  `$TMPL`/`$TMMI`) as a parameter. It reduces it to 32 bits, as the
  `(int)` cast does. The clock is not modelled, and neither is the C
  signed overflow of `reporttime + 1` at the top of the range.
- Script.Conv reduces its sum modulo 256. In the source the sum is a
  `double`, and converting one above 255 to `unsigned char` is undefined in
  C: a first digit 'G' gives 23 * 16 = 368, and a one-character token "3"
  gives 48 + 208 = 256, because the NUL's digit value is 0 - 48 truncated
  to 208. The model matches the source only where the sum stays below 256,
  which includes every pair of hex digits.
- `check_send_error` (smatool.c:328-416) is not part of this model. It
  sits outside the wait loop and reads extra frames only to log them.
- `already_read` is always 0 where the `R` directive tests it, so every
  pass of the wait reads a frame.
- Session.Interpreter.constructor starts the checkpoint line at 0. In the
  source `returnline` and `returnpos` (smatool.c:1285-1286) are not
  initialised, so a failure before the first checkpoint label jumps to an
  undefined position; the model's 0 is a choice.
- Session.Interpreter.Fail models the effect of a failure on the script
  position as the line number. The `fseek` to `returnpos`, the `sleep(10)`
  and the `goto start` are not modelled.
- The `$TIMESTRING` marker test (smatool.c:1923) is not modelled as an
  operation. Its failure path is the `TimeString` kind of
  `Session.Failure`, with its limit of 10.
- The `:startsetup` label (smatool.c:2105-2107) only sleeps and sets no
  checkpoint. It is not modelled.
- Configuration files, command-line options, the MySQL/SQLite export
  (which runs when `error == 0`), the time zone, HTTP uploads and logging
  are not part of the core and are not modelled.
- Link.ReadUnescapeIsStrip documents an asymmetry rather than a bug.
  `read_bluetooth` turns a lone trailing 0x7d into 0x20, because it reads
  its zero-filled buffer past the body. `strip_escapes` drops such a byte.
- The receive repair table is not a subset of the send table: 0x66 and
  0x6a appear only on the receive side (LengthFix.ReceiveOnlyLengths).
- A header whose length byte already equals the new length is left
  unchanged, companion included: the repair runs only when the two differ
  (bluetooth.c:37, LengthFix.RepairAgreeingLength).
- Link.ReadBluetooth treats a body of `cc` bytes as no echo when the frame
  last sent is shorter than `cc`. In the source `memcmp` then reads past
  `last_sent`, which is undefined behaviour; the model does not follow it.
- Link.ReadBluetooth admits a body of at most `length byte - 3` bytes, or
  1021 bytes when the length byte is 0, 1 or 2 (the `size_t` count is then
  huge and `recv` is limited only by what arrives). A longer body overruns
  `received` in the source (and, beyond 1024 bytes, `buf`) and is not
  modelled.
- Stream.NoCutOnLinkFrames holds only for a length byte of 3 or more.
  After a smaller one `*rr` can exceed 500, and the cut at index 500 then
  shortens the piece, as Stream.PieceBytes states.

## Findings

| source | as written | input that shows it | evidently intended | confidence | as-written member | corrected member |
|---|---|---|---|---|---|---|
| smatool.c:1761 | each password byte is `(c + 0x88) % 0xff` | the password character 'w' (0x77): as written it is sent as 0x00, but 0x77 + 0x88 = 0xff; DEL and 0x80 are both sent as 0x08 | `(c + 0x88)` truncated to a byte, i.e. modulo 256, which matches the padding byte 0x88 for NUL and keeps the encoding one-to-one | medium, not executed | Script.PasswordByteAsWritten and Script.PasswordFieldAsWritten, built by Script.PasswordBytes, with Script.PasswordModulusWitness, Script.PasswordModulus and Script.PasswordFieldsAgree | Script.PasswordByte and Script.PasswordField, with Script.PasswordByteDecodes, Script.PasswordByteInjective and Script.PasswordFieldInjective |
