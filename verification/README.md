# A verified model of go-hsql

go-hsql is a `database/sql` driver that talks to an HSQLDB server in the server's binary
protocol. This project models the parts of it whose correctness is hardest to see and proves what
they promise, for every input and every run:

- **The binary codec** (`internal/proto`): an append-only writer and a cursor reader with a sticky
  error, modified UTF-8 (section 4.4.7 of the Java Virtual Machine Specification), two's-complement
  integers of any size, decimal and interval text, a codec for values directed by their column type,
  six metadata layouts, row blocks, and frames chained up to a NONE byte.
- **The large-object sub-protocol** (`lob.go`): parameters replaced by temporary ids, streams cut into
  a CREATE and SETs at running offsets, text cut on UTF-16 units (sections 2.1 and 2.2 of RFC 2781)
  without splitting a pair, values fetched back in blocks of any size. The server is a store of objects
  that replays segments.
- **The updatable cursor** (`updatable.go`): the client's copy closes up when a row is deleted while the
  server keeps the numbers it gave the rows. The server is a map from row number to row image.
- **Paging** (`rows.go`, `conn_query.go`): result sets fetched block by block, and chains of them.
- **The connection and its transactions** (`conn.go`, `tx.go`): which bytes an exchange consumes, what a
  broken connection may still do, and what a transaction leaves behind in the server's session when any
  exchange may be refused or lost.
- **Array text** (`array.go`): rendering and parsing of `[a, "b", NULL]`.

Where the source changes things step by step, the model is a class or a method with the source's
fields, branches and loops, and its contract equates the new state with a pure function of the old
one; the laws are then proved of the functions. Files named `...Laws.dfy` hold the laws, and beside them the
servers and loops that only the laws need: `LobLaws.dfy` has the fetch loops of `lob.go` and the loop of
`send` over large objects. A round trip does not say which bytes travel, so `TypeCodes.dfy` and `ArrayValues.dfy`
state the bytes of every type code, and `Layouts.dfy` the offsets of frames, headers and descriptors, in numbers.

Everything outside the program is a parameter: what the server answers, where an exchange fails, how a
stream is cut into reads, how Go prints a float, how letters are case-folded. A Go run-time panic is an
outcome of its own, never a precondition of a reader.

## What does not hold

Several promises of the code or of its comments fail for some inputs. The model keeps the code as it
is and proves exactly when they hold.

- `bigIntToTwosComplement` is said to be of minimal length; it uses one byte more exactly for the
  negative powers -2^(8k-1) (`TwosComplement.ShortestIff`).
- `writeMetadata` is called the inverse of `readMetadata`. The simple layouts drop precision and scale, as
  of the parameter types a prepared batch sends, and every layout drops the fields it has no room for:
  metadata comes back exactly when it uses nothing else (`MetadataLaws.RoundTrip`). The rows sent with it
  are not affected (`PayloadLaws.RowsSurviveIff`).
- Reading RESULT metadata that ends inside its extended count indexes a slice of length zero and
  panics, instead of reporting an error (`MetadataLaws.TruncatedMetadata`, `DataBlocks.TruncatedData`).
- `parseDecimal` undoes `formatDecimal` only for a non-negative scale or a zero value
  (`Decimal.RoundTripIff`). It never looks behind the fraction digits it keeps: `7.x!` is taken for 7
  at scale 0 (`DecimalLaws.JunkTaken`), and 1.5e-07, as Go prints that float, for 1.5 at scale 1, so that a float64 bound to a
  DECIMAL can reach the server ten million times too large. `DecimalLaws.AcceptedIff` says which texts
  are taken and with what value, `DecimalLaws.ExactIff` for which of them the value is right.
- Values survive the value codec exactly when they are canonical for their type
  (`ValueLaws.RoundTripIff`): array elements lose scale and nesting because only the base code is kept,
  and a decimal text survives exactly when it is the one text of its number at the column's scale
  (`DecimalLaws.FixedTextIff`).
- Lengths travel as int32: a longer byte string or payload never comes back
  (`Wire.BytesCodecIff`, `Frame.FrameRoundTripIff`).
- The plain SECOND interval prints seconds within the minute (`IntervalLaws.SecondFormIff`), and the
  least int64 cannot be negated, so that its text has two minus signs
  (`IntervalLaws.MonthsBackIff`, `IntervalLaws.SecondsBackIff`).
- Array text loses a trailing empty binary element (`ArrayTextLaws.RoundTripIff`).
- A server that answers a LOB read with an empty block ends the fetch early without an error
  (`LobLaws.FetchedIff`).
- A failed `prepareLobParams` has already replaced every convertible slot in front of the one it fails
  on (`LobLaws.FailedPrepare`), so that the slots are as they were exactly when no such slot precedes it
  (`LobLaws.UntouchedIff`, with `LobLaws.HalfPrepared` for an input).
- The declared length of a `Clob` is never looked at: the object created has that many units exactly
  when the text itself has (`LobLaws.DeclaredLengthIff`, with `LobLaws.LengthIgnored` for an input).
- Rows chained to a main result that is neither rows nor a CALL_RESPONSE are never shown
  (`PagingLaws.VisitsAllIff`), such as the keys generated by an update (`PagingLaws.KeysHidden`).
- `closeCurrent` is said to spare the server a CLOSE_RESULT when nothing is undelivered; it sends one
  also when everything was delivered and not everything consumed (`PagingLaws.CloseGuard`).
- A finish whose ENDTRAN and autocommit requests are both refused leaves client and server with
  different autocommit modes (`Transaction.AutocommitDisagreesIff`).
- `ResetSession` does not undo everything a failed `BeginTx` has set, so that a valid connection can be
  handed out with a read-only session. `Transaction.ResetSessionCleansIff` says for which options and
  which accepted requests that happens, `Transaction.FailedBeginLeaks` gives a run.

## Model

| member | source | states |
|---|---|---|
| Wire.RowOutput.WriteInt | internal/proto/rowout.go:45-47 | appends the four bytes of the value modulo 2^32, most significant first, and nothing else |
| Wire.RowOutput.WriteDecimal | internal/proto/rowout.go:85-88 | appends the length-prefixed two's complement of the unscaled value, then the scale |
| Wire.RowInput.Need | internal/proto/rowin.go:32-41 | succeeds exactly when no error is set and n bytes remain; otherwise the first error stays or is set, and the position stays |
| Wire.RowInput.Bytes | internal/proto/rowin.go:97-109 | a length and that many bytes; empty after an error or for a negative length |
| Wire.FixedCodec | internal/proto/rowout.go:40-54 | integers of any width come back modulo the width, unchanged when in range, and a cut is reported |
| Wire.BytesCodec | internal/proto/rowin.go:97-109 | byte strings come back from any position whatever follows, and an input cut inside one sets the error |
| Wire.BytesCodecIff | internal/proto/rowout.go:66-69 | a byte string comes back if and only if its length fits an int32 |
| Wire.OddLengths | internal/proto/rowin.go:97-109 | a negative length is read as no bytes, and a length beyond the input sets the error |
| Wire.StringCodec | internal/proto/rowin.go:112-123 | the same for strings through modified UTF-8 |
| Wire.DecimalCodec | internal/proto/rowin.go:127-131 | unscaled value and scale of any decimal come back, and a cut is reported |
| ReaderRuns.ReaderKeeps | internal/proto/rowin.go:32-131 | over any sequence of reads the buffer stays, 0 <= pos <= len(buf), the position never moves back, and the first error is final |
| ReaderRuns.PanicOnlyInMetadata | internal/proto/result.go:426-486 | a sequence of reads can panic only while reading metadata with no error set so far |
| ModifiedUtf8.EncodeModifiedUTF8 | internal/proto/rowout.go:93-117 | the loop over runes gives the concatenation of their encodings |
| ModifiedUtf8.DecodeModifiedUTF8 | internal/proto/rowin.go:136-180 | the index-driven loop terminates on any bytes and gives the decoding, no more runes than bytes |
| ModifiedUtf8.RoundTrip | internal/proto/rowin.go:136-180 | decoding undoes encoding for every sequence of Unicode scalar values, NUL and supplementary characters included |
| ModifiedUtf8.NoZeroByte | internal/proto/rowout.go:93-117 | no encoding contains a zero byte |
| ModifiedUtf8.Injective | internal/proto/rowout.go:93-117 | different strings have different encodings |
| ModifiedUtf8.BytesOf | internal/proto/rowout.go:93-117 | every character has the bit patterns of the table of section 4.4.7: one, two or three bytes, two bytes for NUL, and three for each half of a surrogate pair |
| ModifiedUtf8.StrayByte | internal/proto/rowin.go:136-180 | a byte that starts no group, or whose group is cut off, is decoded as a character of its own |
| TwosComplement.RoundTrip | internal/proto/rowin.go:184-195 | every integer comes back, and its top bit is set exactly when it is negative |
| TwosComplement.ShortestIff | internal/proto/rowout.go:119-149 | no shorter byte string decodes to the value, except exactly for -2^(8k-1), which gets k + 1 bytes where k do |
| Decimal.FormatDecimal | internal/proto/types.go:267-292 | the padding loop and the two slices give the text with scale digits after the point, or the zeros of a negative scale |
| Decimal.ParseDecimal | internal/proto/types.go:489-525 | trimming, sign, point, padding and cutting give the specified parse, or its failure |
| Decimal.ParseTruncates | internal/proto/types.go:489-525 | for any well-formed text the result is the exact value times 10^scale, cut toward zero |
| Decimal.RoundTripIff | internal/proto/types.go:267-292 | parsing undoes formatting if and only if the scale is not negative or the value is zero |
| Decimal.IntPathAgrees | internal/proto/types.go:464-487 | the integer path gives what parsing the integer's text gives, at every scale |
| DecimalLaws.AcceptedIff | internal/proto/types.go:489-525 | a text is accepted if and only if the characters in front of the point and the fraction digits kept are nothing, or digits after at most one more sign; their number, negated for each minus sign, is the value |
| DecimalLaws.NumeralAcceptedIff | internal/proto/types.go:489-525 | a number in full, exponent included, is accepted if and only if its exponent mark lies behind the fraction digits kept |
| DecimalLaws.ExactIff | internal/proto/types.go:489-525 | for every text that stands for a number, the result is its exact value times 10^scale cut toward zero if and only if an exponent mark lies behind the digits kept and the exponent is zero or only zeros stand in front of the cut |
| DecimalLaws.FixedTextIff | internal/proto/types.go:267-292 | printing what was parsed gives the text back if and only if it is canonical: no needless zero, exactly scale digits after the point, a minus sign only before a non-zero number, only zeros for a negative scale |
| DecimalLaws.FloatTextMisread | internal/proto/types.go:474-475 | the text of a small float is accepted at scale 1 with a value ten million times too large |
| IntervalLaws.MonthsBack | internal/proto/types.go:294-310 | a reader of the text recovers the months, or for YEAR the whole years toward zero |
| IntervalLaws.MonthsBackIff | internal/proto/types.go:294-310 | over all int64 counts this holds if and only if the count is not the least int64 |
| IntervalLaws.SecondsBack | internal/proto/types.go:314-367 | a reader of the text recovers seconds and nanoseconds exactly in the forms ending in seconds, and otherwise the value cut toward zero at the last field |
| IntervalLaws.SecondsBackIff | internal/proto/types.go:314-367 | over all int64 seconds of one sign with the nanoseconds this holds if and only if they are not the least int64 |
| IntervalLaws.SecondFormIff | internal/proto/types.go:342-349 | the plain SECOND form is exact if and only if the value is within a minute |
| ValueIO.WriteValue | internal/proto/types.go:73-147 | appends the flag and the encoding of the value by its type, arrays element by element, and fails with the same bytes written |
| ValueIO.ReadValueFrom | internal/proto/types.go:151-229 | reads flag and value by type, leaving value, position and error as specified |
| ValueIO.ReadArray | internal/proto/types.go:373-387 | the element loop stops at the first error and leaves the remaining elements NULL |
| ValueLaws.ReadBack | internal/proto/types.go:73-229 | every accepted value is read back as its normal form, consuming exactly its bytes whatever follows; an input cut inside them sets the error |
| ValueLaws.KeptIff | internal/proto/types.go:391-479 | the value is accepted and is its own normal form if and only if it is canonical for the column type |
| ValueLaws.RoundTripIff | internal/proto/types.go:73-229 | a value comes back unchanged with exactly its bytes consumed if and only if it is canonical: NULL, in range, or an array of such over its base code |
| ValueLaws.DoubleMisread | internal/proto/types.go:464-479 | a float64 that prints as 1.5e-07 is written to a scale-1 DECIMAL as 1.5 |
| ValueLaws.TruncationNoticed | internal/proto/types.go:151-229 | reading any strict prefix of an encoded value ends with an error |
| TypeCodes.Nulls | internal/proto/types.go:73-77 | NULL is one zero byte for every type, and a zero byte is read as NULL |
| TypeCodes.Untypeds | internal/proto/types.go:80-81 | code 0: nothing follows the flag, and NULL is read |
| TypeCodes.Texts | internal/proto/types.go:82-83 | codes 1 and 12: the length of the modified UTF-8 and the modified UTF-8; read back as that text |
| TypeCodes.Integers | internal/proto/types.go:84-89 | codes -6 and 5 take two bytes, 4 takes four, 25 takes eight; read back when in range |
| TypeCodes.Floats | internal/proto/types.go:90-91 | codes 6, 7 and 8: the 64 bits |
| TypeCodes.Booleans | internal/proto/types.go:92-93 | code 16: 1 or 0 is written, and any byte but 0 is read as true |
| TypeCodes.Decimals | internal/proto/types.go:94-99 | codes 2 and 3: the length of the two's complement, the two's complement and the scale; read as the decimal text |
| TypeCodes.Dates | internal/proto/types.go:100-102 | code 91: the one multiple of 86400 less than a day behind the local time, in eight bytes; read as that instant |
| TypeCodes.Clocks | internal/proto/types.go:103-109 | codes 92 and 94: the seconds since local midnight and the nanoseconds in four bytes each, then for 94 the zone offset; read back |
| TypeCodes.Stamps | internal/proto/types.go:110-116 | codes 93 and 95: the epoch seconds in eight bytes, the nanoseconds in four, then for 95 the zone offset; read back |
| TypeCodes.Binaries | internal/proto/types.go:117-120 | codes 60, 61, -11 and 1111: the length and the bytes; read back |
| TypeCodes.BitStrings | internal/proto/types.go:121-124 | codes 14 and 15: eight times the number of bytes, then the bytes; read back for any bit count that needs as many bytes |
| TypeCodes.Objects | internal/proto/types.go:137-142 | codes 30 and 40: the id in eight bytes, read as a BLOB or CLOB reference; anything but a reference is refused |
| TypeCodes.MonthIntervals | internal/proto/types.go:199-200 | codes 101, 102 and 107 are read as a count of months in that form, and never written |
| TypeCodes.SecondIntervals | internal/proto/types.go:201-204 | codes 103 to 106 and 108 to 113 are read as seconds and nanoseconds in that form, and never written |
| ArrayValues.Arrays | internal/proto/types.go:125-136 | code 50: the count and the elements as values of the base code alone; anything but an array is refused |
| ArrayValues.ArrayRefused | internal/proto/types.go:132-136 | writing an array ends at the first element that is refused |
| ArrayValues.ArraysRead | internal/proto/types.go:373-387 | the elements of an array are read one after another, with the base code on the result |
| ArrayValues.NegativeCount | internal/proto/types.go:373-387 | a negative count is read as an empty array without a base code |
| TypeCodes.Others | internal/proto/types.go:143-144 | every other code is refused by the writer, and by the reader with an error that names it |
| Coercions.IntegersFrom | internal/proto/types.go:402-420 | in an integer column true is 1, a double is cut, and what is no number is 0 |
| Coercions.TextsFrom | internal/proto/types.go:391-400 | in a text column bytes are taken as text and other values as they print |
| Coercions.FloatsFrom | internal/proto/types.go:422-433 | in a floating-point column an integer is converted and anything else is 0 |
| Coercions.BooleansFrom | internal/proto/types.go:435-444 | in a BOOLEAN column an integer is true unless 0, and anything else is false |
| Coercions.BytesFrom | internal/proto/types.go:446-455 | in a binary or bit column a string is its UTF-8 and anything else is empty |
| Coercions.TimesFrom | internal/proto/types.go:457-462 | in a date or time column anything but a time is the first instant of the year 1 |
| Coercions.DecimalsFromIntegers | internal/proto/types.go:472-487 | an integer in a decimal column is that integer times 10^scale at the scale of the column, or unscaled at a negative scale |
| Coercions.DecimalsFromTexts | internal/proto/types.go:464-479 | texts, bytes and doubles in a decimal column are what their text parses to, and refused when it does not |
| Coercions.NoDecimals | internal/proto/types.go:476-478 | truth values, times, arrays and references are refused by a decimal column |
| Metadata.WriteMetadata | internal/proto/result.go:218-265 | the six layouts, branch by branch, as appended bytes |
| Metadata.ReadMetadata | internal/proto/result.go:426-486 | the six layouts read in order, unknown kinds reported, and a panic for a negative count or fewer extended than visible columns |
| Layouts.MetaLayout | internal/proto/result.go:218-265 | by number, for each of the six kinds, what stands behind the kind and the column count |
| Layouts.TypeLayout | internal/proto/types.go:20-64 | the fields of a type descriptor by offset, with a base code for code 50 only |
| Layouts.ColumnLayout | internal/proto/result.go:240-258 | the parts of a column and of a parameter in order |
| MetadataLaws.RoundTrip | internal/proto/result.go:215-265 | for all six kinds reading gives back what the layout stores, whatever follows, and that is the metadata written if and only if it was well-formed: used nothing its layout does not carry |
| MetadataLaws.StoredWellFormed | internal/proto/result.go:218-265 | what a layout stores of any metadata in range is well-formed and has the very same bytes |
| MetadataLaws.TruncatedMetadata | internal/proto/result.go:426-474 | any strict prefix of written metadata in range is an error, except that RESULT metadata with columns cut inside its extended count panics |
| Payload.EncodePayload | internal/proto/result.go:162-172 | header, metadata and rows appended in the layout shared by SETSESSIONATTR and the batch requests |
| Layouts.HeaderLayout | internal/proto/result.go:165-168 | the four integers of the shared layout by offset |
| Payload.WriteSimpleRows | internal/proto/result.go:308-327 | a count and the rows, short rows filled up with NULL, stopping at the first value that fails |
| Payload.DecodePayload | internal/proto/result.go:391-410 | header, metadata and rows, a bare acknowledgement in the SETSESSIONATTR mode only, an error, or a panic |
| PayloadLaws.PayloadReadBack | internal/proto/result.go:308-410 | whatever was encoded without an error is decoded to the same header, what the layout stores of the metadata, and the rows in normal form, whatever follows, when there is one type per column or there are no rows |
| PayloadLaws.DecodedRows | internal/proto/result.go:308-327 | value by value: a decoded row has one value per column, the normal form of the value given, or NULL where the row was shorter |
| PayloadLaws.RowsSurviveIff | internal/proto/result.go:308-410 | header and padded rows come back if and only if there are no rows, or one type per column and every value canonical, whatever the layout drops of the metadata |
| PayloadLaws.NoMetadata | internal/proto/result.go:219-223 | nil metadata is decoded as that of a simple result without columns, and its rows are not sent |
| PayloadLaws.PayloadRoundTripIff | internal/proto/result.go:308-410 | header, metadata and padded rows all come back unchanged if and only if the metadata is well-formed and there are no rows, or one type per column and every value canonical for its column |
| PayloadLaws.TruncatedBlock | internal/proto/result.go:520-539 | any strict prefix of a row block written without an error is an error |
| PayloadLaws.SessionAttrRequest | internal/proto/result.go:270-306 | a session-attribute request of any id and values decodes to one row of the id and those values, NULL for those not given, under types 4, 4, 16 and 12 |
| DataBlocks.ReadRowSet | internal/proto/result.go:494-516 | id, size, offset and the rows read with every type of the metadata, hidden ones included |
| DataBlocks.DecodeData | internal/proto/result.go:366-374 | the four answers that carry a result-set block, an error, or a panic |
| ServerValues.CellReads | internal/proto/types.go:151-229 | every value a server can send for a column type, intervals and decimals at any depth included, is recovered as what the client shows for it, and every cut inside it sets the error |
| ServerValues.MonthsArrive | internal/proto/types.go:199-200 | a YEAR/MONTH interval arrives as a text that reads as its months, if and only if they are not the least int64 |
| ServerValues.SecondsArrive | internal/proto/types.go:201-204 | a DAY/SECOND interval of one sign arrives as a text that reads as its value to the last field, if and only if the seconds are not the least int64 |
| DataBlocks.DataRoundTrip | internal/proto/result.go:366-374 | what a server lays out for well-formed metadata and rows of its types is decoded and shown, whatever follows |
| DataBlocks.TruncatedData | internal/proto/result.go:416-420 | a cut answer is never taken for a whole one; it panics if and only if it ends inside the extended count |
| DataBlocks.TruncatedPayload | internal/proto/result.go:398-420 | the same for the shared layout, where only an empty payload reads as an acknowledgement |
| Frame.Stream.WriteFrame | internal/proto/frame.go:13-30 | appends the mode, a length that counts itself, and the payload, unless the buffered writer has failed before |
| Frame.Stream.NextFrame | internal/proto/frame.go:38-59 | reads one frame, the end, or an error, and consumes exactly what it read |
| Layouts.FrameLayout | internal/proto/frame.go:13-30 | mode, length and payload of a frame by offset |
| Frame.FrameRoundTripIff | internal/proto/frame.go:13-59 | a frame is read back with what follows untouched if and only if its length fits |
| Frame.FrameExact | internal/proto/frame.go:38-59 | a frame that is read is exactly the writer's encoding of it: nothing else is accepted |
| Frame.TransmissionRoundTrip | internal/proto/frame.go:13-59 | a list of frames and the terminator are read back as that list with what follows untouched |
| Frame.TransmissionExact | internal/proto/frame.go:33-59 | whatever is read as a list of frames is the encoding of that list and its terminator |
| Connection.Conn.Send | conn.go:128-153 | writes request frame, LOB bytes and terminator, or reports the failure with what had been written |
| Connection.Conn.ReceiveResponse | conn.go:158-182 | drains frames up to the terminator, failing on an empty response or a frame that does not decode |
| Connection.Conn.ExecCtx | conn.go:193-223 | the outcomes of an exchange and its effect on the flags and both directions of the wire |
| Connection.Conn.CloseConn | conn.go:276-284 | closes once, writing DISCONNECT first even when broken, unless the buffered writer has failed before |
| Connection.Conn.LobExchange | lob.go:352-373 | a request and one reply, and a broken connection after any failure |
| LobReply.ReadLobResponse | lob.go:386-444 | the reply frame field by field, numbers missing at the end of the stream read as zero, an ERROR frame, or a panic on a negative size |
| LobReply.RoundTrip | lob.go:386-444 | a whole reply is read as the length or block it carries, and exactly its bytes are consumed |
| LobReply.ReplyExact | lob.go:386-444 | whatever is read as a reply has consumed exactly one whole reply that carries it, unless the stream has ended |
| Connection.ReceiveIff | conn.go:158-182 | receive returns a chain exactly when the input starts with one whole transmission of it, and then consumes just that |
| Connection.ExecMeans | conn.go:193-223 | a request that can be made is answered with a chain exactly when the input starts with one whole decodable transmission of it: a server error if its first mode is 2, a response otherwise, the connection usable and just that consumed; anything else breaks it |
| Connection.ExecRefused | conn.go:193-223 | ErrBadConn exactly on a closed or broken connection and a cancellation exactly before sending, neither changing anything; a request that fails to serialize breaks the connection without reading |
| Connection.RequestRead | conn.go:128-153 | what is sent reads as one frame, its LOB bytes and the terminator |
| Connection.ModesReceived | internal/proto/result.go:354-420 | a transmission of one frame is received for exactly fourteen modes, when its payload decodes |
| Connection.CloseMeans | conn.go:276-284 | the first Close adds what reads as one DISCONNECT (32) without payload, and later ones nothing |
| Connection.ExchangeMeans | lob.go:352-373 | a LOB request that meets a whole reply takes just that reply and leaves the connection usable |
| Connection.BrokenStaysSilent | conn.go:193-223 | over any run a broken or closed connection stays so, reads nothing, and only the first Close still writes |
| Connection.RequestsAndResponsesPaired | conn.go:193-223 | over any run of requests and LOB exchanges that leaves the connection usable, what was consumed is one whole response or reply for each request written, in order; only a last LOB reply may be short, when the stream has ended inside it |
| Transaction.Conn.Begin | tx.go:27-61 | BeginTx with its early exits, flag updates and requests, under any fault |
| Transaction.Conn.FinishTx | tx.go:69-88 | Commit and Rollback: ENDTRAN, autocommit, reset, under any fault |
| Transaction.Conn.Commit | tx.go:64 | ends the transaction with a commit |
| Transaction.Conn.Rollback | tx.go:67 | ends the transaction with a rollback |
| Transaction.Conn.ResetSessionCharacteristics | tx.go:101-117 | three requests made before any result is looked at, and a broken connection after any failure |
| Transaction.Conn.Reset | conn.go:292-308 | ResetSession: the statements ROLLBACK and SET AUTOCOMMIT TRUE, the client's flag only after both |
| Transaction.BeginMeans | tx.go:27-61 | BeginTx succeeds if and only if the connection is usable and idle, the level is one of HSQLDB's, and every request it has to make is carried out; the session then has exactly the level and mode asked for and does not commit by itself, and the client knows of both |
| Transaction.FinishMeans | tx.go:64-88 | a finish returns nil if and only if the connection is usable and both requests are carried out, with autocommit on at both ends; the transaction has ended as asked exactly when ENDTRAN was applied, whatever was returned |
| Transaction.ResetMeans | conn.go:292-308 | ResetSession succeeds if and only if both statements do, and has then rolled back and turned autocommit on at both ends |
| Transaction.RunKeepsSafe | tx.go:27-117 | in every run with faults anywhere, a session away from READ COMMITTED read-write implies `txAlteredSession` or a broken connection, a client in a transaction has a server that does not commit by itself or a broken connection, and a broken connection changes nothing more |
| Transaction.FinishNilCleans | tx.go:69-117 | a finish that returns nil leaves autocommit on at both ends, and either default characteristics or a broken connection |
| Transaction.AutocommitDisagreesIff | tx.go:76-86 | a finish leaves an unbroken connection with different autocommit at the two ends if and only if ENDTRAN and the attribute are both refused and no reset fails |
| Transaction.ToggleClearsIff | tx.go:95-117 | toggling through a level and back, then read-only false, ends at the default from every session state if and only if the level is not READ COMMITTED |
| Transaction.ResetSessionCleansIff | tx.go:27-61 | after a failed BeginTx on an idle default session, a successful ResetSession leaves the session away from its defaults if and only if the server had taken READ UNCOMMITTED, or another level but the default or a read-only request that it does not take back itself |
| Transaction.FailedBeginLeaks | tx.go:36-56 | a run of a failed BeginTx and a successful ResetSession ends with the sticky flag set on a connection that is still valid |
| UpdatableRows.ColumnIndex | updatable.go:274-281 | the first column whose label or name matches, or none at all |
| UpdatableRows.Rows.Advance | updatable.go:131-137 | Next moves on by one or stays where it is |
| UpdatableRows.Rows.Update | updatable.go:165-203 | UpdateRow: its checks, the request sent, and the merge of the rows echoed |
| UpdatableRows.Rows.Delete | updatable.go:207-223 | DeleteRow: the request sent and both lists closed up, the position one back |
| UpdatableRows.Rows.Insert | updatable.go:227-242 | InsertRow: the request sent and nothing changed in the client |
| UpdatableRows.Rows.MergeUpdatedRows | updatable.go:313-333 | the nested loops put each echoed row at the index of its server number |
| CursorLaws.CursorRuns | updatable.go:86-333 | in every run the numbers stay strictly increasing, the rows are the server's live images by number, -1 <= pos < Len() or the copy is empty, and Next has landed on 0, 1, 2, ... with none skipped, and on all of them when it ends |
| CursorLaws.StepKeepsInv | updatable.go:131-333 | every operation with every outcome keeps this agreement |
| CursorLaws.RequestsAreCurrent | updatable.go:285-307 | every update and delete sent names the server's number and row id of the current row |
| CursorLaws.FailureChangesNothing | updatable.go:165-242 | an operation that fails changes at most the broken flag, and nothing on the server unless the connection broke |
| CursorLaws.UpdateMeans | updatable.go:165-203 | after a successful update the current row has the last value given for each named column, its old value elsewhere, and no other row has changed |
| CursorLaws.InsertMeans | updatable.go:227-242 | an insert is sent if and only if the rows are open, every name is a column's and the connection can be used, and succeeds if and only if it is accepted then; the row sent has the value given last for each visible column and NULL elsewhere, and only the broken flag can change |
| CursorLaws.UpdateActs | updatable.go:165-203 | when an update is sent and when it succeeds, and what the request holds in every column: value and type of the named ones, an untyped NULL for the others, row id and number |
| CursorLaws.DeleteActs | updatable.go:207-223 | when a delete is sent and when it succeeds, what the request holds, and the copy without the row afterwards |
| CursorLaws.ColumnIndexIff | updatable.go:274-281 | the index found is the first whose label or name equals the name up to letter case, and nothing else is found |
| CursorLaws.AssignLast | updatable.go:171-186 | each column gets the last value that names it, by label or name |
| Utf16.RoundTrip | lob.go:315-338 | decoding undoes encoding for every text |
| Utf16.UnitsOf | lob.go:235-260 | one unit below 0x10000, above it a surrogate pair whose ten bits each make up the rest |
| Lob.Conn.NextLobID | lob.go:52-56 | ids count down from -1 |
| Lob.Conn.PrepareLobParams | lob.go:61-96 | slots replaced in place one after another, ids and payloads in order, what a failure leaves behind |
| Lob.Conn.WriteBytesFromReader | lob.go:168-203 | for any chunking of the stream one CREATE and SETs at running offsets that hold exactly its bytes, one empty CREATE for an empty stream |
| Lob.Conn.WriteBytesCounted | lob.go:168-185 | exactly the declared number of bytes in one CREATE, or a failure when the stream is shorter |
| Lob.ReadUTF16Chunk | lob.go:235-260 | the longest run of whole characters within the unit limit, the next one put back |
| Lob.NextChunk | lob.go:205-260 | for a limit of at least two units every chunk is within it, non-empty until the end, and made of whole characters |
| Lob.ChunkProgressIff | lob.go:235-260 | a chunk makes progress if and only if the limit is at least two, or one and the next character needs one unit |
| Lob.Conn.WriteCharsFromReader | lob.go:205-233 | the segments hold exactly the UTF-16 of the text, each made of whole characters within the limit, at running offsets |
| Lob.Conn.WriteLobCreate | lob.go:140-151 | every kind of payload becomes an upload of its content |
| LobLaws.StreamIs | lob.go:168-203 | what a byte stream delivers: all data up to the first read that ends or fails, the data of that read included |
| LobLaws.ReplayUpload | lob.go:168-233 | a server replaying an upload creates exactly one object with exactly its content |
| LobLaws.PrepareOwns | lob.go:61-138 | each converted slot gets an id of its own, tied to exactly one payload, in order |
| LobLaws.FailedPrepare | lob.go:61-96 | after a failure every convertible slot in front of the failing one is a reference with ids counting down, and all other slots are unchanged |
| LobLaws.UntouchedIff | lob.go:61-96 | a failure leaves the slots as they were if and only if no convertible slot precedes the failing one |
| LobLaws.DeclaredLengthIff | lob.go:31-34 | the object created has its declared number of units if and only if the payload is not a text stream of another length |
| LobLaws.ReplayAll | lob.go:140-151 | uploads with distinct fresh ids all land, each with its content, and disturb nothing |
| LobLaws.GetUnits | lob.go:290-313 | the fetch loop returns the blocks put together up to the first empty one |
| LobLaws.GetChars | lob.go:315-338 | units are collected first and decoded once |
| LobLaws.FetchedIff | lob.go:290-338 | for any schedule of short blocks the whole content comes back if and only if no block is empty |
| LobLaws.SendObjects | conn.go:141-146 | the loop over the prepared objects uploads each of them, or fails if and only if one has no content |
| LobLaws.SendRequest | conn.go:128-146 | preparing the slots and sending the objects fails if and only if some slot has no value to hold, and otherwise every slot refers to an object of its own with its content |
| LobLaws.EndToEnd | lob.go:61-338 | every large-object slot ends up with an id of its own for an object with its content, fetched back whole; other slots and objects are untouched |
| LobLaws.TextComesBack | lob.go:315-338 | text sent to a CLOB and fetched in any non-empty blocks, even ones that split a pair, comes back |
| LobLaws.BytesComeBack | lob.go:290-313 | bytes bound to a BLOB, or the UTF-8 of a text, come back byte for byte from any non-empty blocks |
| Paging.Rows.constructor | conn_query.go:72-94 | which result a rows object starts on and which wait behind it |
| Paging.Rows.LoadResult | rows.go:41-57 | the fields a result set starts with |
| Paging.Rows.FetchBlock | rows.go:127-150 | asks for rows from the current offset, unless all have been delivered or the connection cannot be used, and takes the block |
| Paging.Rows.NextRow | rows.go:72-100 | the next row, the end, or an error, fetching when the block is used up, and the request sent for it |
| Paging.Rows.CloseCurrent | rows.go:162-173 | sends CLOSE_RESULT under the guard of the code, on an open connection only, and fails on a broken one |
| Paging.Rows.Close | rows.go:156-160 | ends the rows and drops what waits, then closes the current set |
| Paging.Rows.AdvanceSet | rows.go:181-192 | closes the current set and loads the next |
| PagingLaws.StartsOnVisited | conn_query.go:72-94 | the search and the two loops amount to walking a list of results |
| PagingLaws.VisitsAllIff | conn_query.go:72-106 | that list is all row-bearing results in order if and only if the main result is one, is a CALL_RESPONSE, or has no rows behind it |
| PagingLaws.NextDelivers | rows.go:72-150 | Next answers with values if and only if a row remains, its block arrives and each of its first n values resolves, n being the least of the destinations, the columns and the row: then exactly those values, of the row at the offset; an error when one does not resolve, EOF exactly at the end, and a failed request changes nothing |
| PagingLaws.NextSetMeans | rows.go:162-192 | NextResultSet succeeds if and only if a set waits and the current one needs no closing or is closed, and is then at the start of that set with the others behind it; otherwise nothing has moved |
| PagingLaws.CloseGuard | rows.go:152-173 | on an open connection CLOSE_RESULT is sent whenever undelivered rows remain, never once all rows are consumed, and otherwise just when delivered rows are left unread; on a broken one nothing is sent and closing fails just where it would have been |
| PagingLaws.PagingRuns | rows.go:30-192 | for every splitting into non-empty blocks and every run over the chain, the rows delivered are a prefix of the whole result, absPos is their number, and EOF comes exactly when all are delivered |
| ArrayText.ParseArrayElements | array.go:136-198 | the scanning loop splits the text into elements as specified, or fails |
| ArrayTextLaws.QuoteBack | array.go:53-54 | unquoting undoes quoting for every string |
| ArrayTextLaws.HexBack | array.go:61-62 | binary content is two lower-case hexadecimal digits for each byte |
| ArrayTextLaws.ParseEncode | array.go:41-198 | parsing the rendered text gives one element per value with the right content, null mark and quoted mark, less a trailing empty one |
| ArrayTextLaws.RoundTripIff | array.go:41-198 | all elements come back if and only if the last is not an empty binary value |

## Left out

- Dialing, TLS, the handshake, `fireCancel` and the `watchCancel` goroutine: cancellation appears only as an exchange that was never sent or was lost.
- DSN parsing, server properties, column type names, error texts: finite tables and wrappers.
- Scanning into Go types (`assignOutValue`, `setArrayElement`, `inferArrayElement`, `Scan`), `sql.Out`: reflection over run-time types.
- Floats: a double is an opaque 64-bit pattern, and its text a parameter.
- Calendar rules and RFC 3339 text: a time is seconds, nanoseconds and a zone offset.
- The remaining layouts of `EncodePayload` and `DecodeResult` (CONNECT, EXECDIRECT, ERROR, PREPARE_ACK and the like): straight sequences of fields whose codecs are proved one by one.
- The bytes of LOB requests: segments and requests for blocks are values with the frame's fields, or opaque. Of truncated LOB replies, whose missing numbers read as zero, the laws say only that nothing follows them.
- The restart of large-object ids by `ResetSession`: that ids of a new request are unused on the server is an assumption of `LobLaws.EndToEnd`.
- Savepoints, two-phase prepare, batch counts, generated keys: single requests.
- Memory: a count read from the wire may ask for more memory than there is.
- The SQL texts of `isolationSQL` and of the statements of a transaction: a request is a value that names its level, mode or end.
- PagingLaws.NextDelivers: a row with fewer values than there are columns, at which the source's index would panic and which its decoder never makes, shows what it has.
- Aliasing of Go slices: buffers, rows and blocks are fields of sequence type that methods reassign, and only the parameter slots of a large-object request are an array changed in place.
- ModifiedUtf8.RoundTrip: is about strings of Unicode scalar values; Go strings with invalid UTF-8, which the encoder turns into U+FFFD, are not modelled.
- ValueLaws.RoundTripIff: assumes lengths that fit an int32, whose limit is proved exact for byte strings, and times with nanoseconds in a second, as Go keeps them.
- MetadataLaws.RoundTrip: is about metadata in range, whose counts say how much is written, as every caller's do.
- Lob.Conn.WriteBytesCounted: of a stream that ends early only the failure is stated, not the bytes already written, since the connection is broken then.
- ServerValues.CellReads: the server's encoder is the model's own reading of the layout, since the repository has only the client's side of it; elements of an array within an array have no type on the client and are left out.
- Connection.Conn.Send: the bytes of LOB frames and a failure to serialize are parameters; which objects are written, and when that fails, is in `LobLaws.SendRequest`.
- Transaction.RunKeepsSafe: the server is a session of five settings that behaves as described at tx.go:95-100 and lets a transaction's end take its own settings back or not.
- CursorLaws.CursorRuns: the server answers honestly, that is, an accepted update echoes rows as they are now and the updated one among them.
- CursorLaws.AssignLast: a Go map is visited in an order of its own; the model takes the order as given, so that two names of one column are resolved by it.
- PagingLaws.PagingRuns: values that name large objects are resolved by a parameter, and a block of no rows from a server that owes some is outside an honest server.
- ArrayTextLaws.ParseEncode: elements are not arrays themselves, whose text is not parsed back, and printed floats and times hold no blank, comma or quote.
- ArrayTextLaws.QuoteBack: `strconv.Quote` and `Unquote` are modelled as an escape of each character and its inverse; octal and raw-byte escapes, which Quote never writes for valid text, are refused by the model.
