# Arduino control server — a Dafny model of `src/server.c`

The server accepts TCP clients, which are Arduino sensor boards. Each client sends short decimal
messages. `handle_clnt` reads a message with `atoi`, takes its last digit (C `%`) as the sensor
category and the rest (C `/`) as the sensor value. It then answers:

- `BUZ_ON` for a near ultrasonic reading (category 0, value below 10);
- `LED_ON` for a dark light reading (category 1, value below 400);
- `OK` for quiet readings of those two categories;
- the servo directive for category 2;
- nothing for any other category.

Every buzzer or LED alert is also passed to `record_error`. It pre-increments the category's
counter and builds the line `<%09d number> <today()> Value: <%d value>\n`. It writes that line
to the category's date-stamped log file one byte at a time, stopping once the C string at the
current byte is `"\n"`. When a client's read loop ends, its socket is removed from the
`clnt_socks` table. That removal loop is modelled exactly as written, and next to it is the
corrected removal, which the client lifecycle uses.

The modules follow the program's pieces:

| module | file | what it holds |
|---|---|---|
| `Limits` | `limits.dfy` | `BUF_SIZ`, `MAX_CLNT` |
| `CArith` | `carith.dfy` | the 32-bit `int` range, and C99 truncating `/` and `%` |
| `CText` | `ctext.dfy` | glibc `atoi` in the "C" locale, `%d`, `%0Nd`, C strings up to their NUL |
| `Protocol` | `protocol.dfy` | decoding a message, the dispatch table, the reply bytes |
| `Scenarios` | `scenarios.dfy` | concrete messages worked through the protocol |
| `Timestamp` | `timestamp.dfy` | `today()` |
| `Logger` | `logger.dfy` | `record_error`, its write loop, and the log-file names built in `main` |
| `Registry` | `registry.dfy` | registering and removing sockets, as written and corrected |
| `Handler` | `handler.dfy` | one client's read loop run in sequence over a list of reads, and its removal |

The handler's state is the counter array `error_index` and, for each log file, the entries it
has received. `Logger.Line` gives the text of an entry. The clock is a parameter: each read
carries the `struct tm` that `localtime` would return while it is handled.

Where the program's own comments and its code differ, the model follows the code:

- The comment at line 189 calls the category "the last digit of the data". In the code the value
  can be negative, because `atoi` accepts a sign and `%` and `/` truncate. So `"-50"` is
  category 0 with value -5, and `"-3"` has category -3.
- The comments at lines 199 and 209 say "at or below" the threshold. The code compares with a
  strict `<`, so 10 and 400 are quiet.
- The comment at line 360 gives the format `yyyy/mm/dd hh:mm:ss`. The code prints the year
  with `%d` (line 352), unpadded.
- The comments at lines 224 and 228 say the client is removed from the array. The code's loop
  moves the entries after the match one slot too late, and line 234 decrements the count even
  when the socket is not there.
- The model departs from the code in three places, each listed with its as-written version
  under the findings below:
  - the servo reply sends the `"DETECTED"` that the comment at line 276 names, where the code
    writes `"Z"`;
  - the client lifecycle uses the corrected removal;
  - `string_data` holds any `int` value's text.

## Model

| member | source | states |
|---|---|---|
| CArith.CMod | src/server.c:189-190 | `flag` and `int_data` after `% 10` and `/= 10` put back together give the number; the remainder is smaller than the divisor in magnitude and has the dividend's sign |
| CArith.CDiv | src/server.c:190 | `int_data /= 10` gives the largest quotient whose product with the divisor does not exceed the dividend in magnitude; a non-zero quotient is negative exactly when the operands' signs differ |
| CArith.CDivTruncates | src/server.c:190 | for a positive divisor, `/` is ordinary division of a non-negative dividend and the negated division of the magnitude otherwise; `-7 / 2` is -3 in C and -4 in Euclidean division |
| CArith.CDivModUnique | src/server.c:189-190 | any quotient and remainder that satisfy C99's rules are exactly the ones the model computes, so the model of `/` and `%` is the only one possible |
| CText.SkipSpaces | src/server.c:188 | `atoi` skips exactly the leading white-space characters and stops at the first other character |
| CText.SkipSpacesIsSuffix | src/server.c:188 | what is left after the white space is the rest of the message itself |
| CText.LeadingDigits | src/server.c:188 | the digits `atoi` converts are all digits, and the character after them is not a digit |
| CText.LeadingDigitsIsPrefix | src/server.c:188 | the converted digits are the front of the text itself, so they are its longest digit run |
| CText.AtoiMinus | src/server.c:188 | any white space, then `-`, then any digit run (leading zeros included), then text not starting with a digit reads as the run's value negated, e.g. `"  -007x"` is -7 |
| CText.AtoiPlus | src/server.c:188 | the same with `+` reads as the run's value |
| CText.AtoiUnsigned | src/server.c:188 | with no sign, a non-empty digit run after any white space reads as its value, whatever follows that is not a digit |
| CText.AtoiDecimalRoundTrip | src/server.c:188 | `atoi` of the `%d` text of any number, followed by nothing or a non-digit, gives the number back |
| CText.AtoiPermissive | src/server.c:188 | white space before the number and an explicit `+` are accepted, and reading stops at the first non-digit |
| CText.NoDigitsParsesZero | src/server.c:188 | text with no digit after the white space and sign reads as 0 |
| CText.NatString | src/server.c:301 | `%d` of a non-negative number is a digit string with that value and no leading zero |
| CText.DecimalString | src/server.c:301 | `%d` of a negative number is `-` followed by the digits of its magnitude |
| CText.ZeroPad | src/server.c:300 | `%09d` gives a digit string of the number's value, at least nine characters long |
| CText.CString | src/server.c:328 | the C string at a position contains no NUL and ends at the first NUL or at the end of the text |
| CText.CStringIsPrefix | src/server.c:328 | the C string at a position is the front of the text there |
| CText.NatStringLength | src/server.c:288 | a number has at most `k` digits exactly when it is below `10^k` |
| CText.DecimalStringLength | src/server.c:288 | the `%d` text of `n` has at most `k` characters exactly when `-10^(k-1) < n < 10^k` |
| CText.CStringOfTerminated | src/server.c:204 | a literal followed by its NUL reads back as the literal |
| Protocol.Decode | src/server.c:188-190 | the category is the last decimal digit and the value the rest, with C's truncating signs |
| Protocol.Dispatch | src/server.c:198-219 | each reply happens exactly under its branch condition (strict thresholds `< 10` and `< 400`, no reply for other categories); a log is made exactly with an alert, carrying the category and value |
| Protocol.HandleMessage | src/server.c:188-219 | one received message, from its text to the reply and the log request |
| Protocol.HandleMessageDecides | src/server.c:188-219 | with `n` the number `atoi` reads, each reply happens exactly under its branch condition on `n % 10` and `n / 10`, a log is made exactly with an alert, and the logged value times ten plus the logged category is `n` |
| Protocol.Literal | src/server.c:204-276 | the literals `OK`, `BUZ_ON`, `LED_ON` and, corrected, `DETECTED` are plain text; only a message of an unknown category gets no literal |
| Protocol.WriteCount | src/server.c:204-276 | `write` is asked for no bytes exactly when there is no reply, and otherwise for the literal and its NUL |
| Protocol.Payload | src/server.c:204-276 | each reply sends its literal and the NUL, exactly as many bytes as `write` is asked for (with `"DETECTED"` as the servo literal) |
| Protocol.ServoWriteOverReads | src/server.c:276 | as written, `write(clnt_sock, "Z", 9)` asks for 7 bytes more than the literal and its NUL |
| Protocol.MalformedMessageBuzzes | src/server.c:188-201 | a message with no digits is category 0 with value 0: buzzer, and a log entry |
| Protocol.ThresholdsAreStrict | src/server.c:40-41 | values 10 and 400 are quiet; 9 and 399 alert and log |
| Protocol.IdentificationNeverLogs | src/server.c:217-219 | category 2 always gets the servo reply and is never logged |
| Protocol.HandleDecimal | src/server.c:188-219 | a message that is the `%d` text of `n` is dispatched as the decoding of `n` |
| Scenarios.Near50 | src/server.c:198-201 | `"50"` buzzes and logs 5 in category 0 |
| Scenarios.Far1000 | src/server.c:203-206 | `"1000"` replies `OK` and logs nothing |
| Scenarios.Dark3001 | src/server.c:208-211 | `"3001"` turns the LED on and logs 300 in category 1 |
| Scenarios.Bright5001 | src/server.c:213-216 | `"5001"` replies `OK` and logs nothing |
| Scenarios.Identify72 | src/server.c:217-219 | `"72"` gets the servo reply and no log |
| Scenarios.Negative50 | src/server.c:188-201 | `"-50"` is category 0 with value -5, so it buzzes and logs -5 |
| Scenarios.Negative3 | src/server.c:188-219 | `"-3"` has category -3: no reply and no log |
| Scenarios.StringDataOverflow | src/server.c:288-301 | the `int` message -1000000000 buzzes and logs -100000000, whose ten-character `%d` text does not fit `string_data[10]` |
| Timestamp.YearFits | src/server.c:350-352 | the year range required of the clock is exactly the years whose `%d` text fits `y[5]` |
| Timestamp.Pad2 | src/server.c:354-358 | `%02d` of a field below 100 is two digits with the field's value |
| Timestamp.Clock | src/server.c:356-358 | `hh:mm:ss` has colons at 2 and 5, and its digit pairs read back as the hour, minute and second |
| Timestamp.Date | src/server.c:354-355 | `MM/DD` reads back as the one-based month and the day |
| Timestamp.Today | src/server.c:345-374 | the timestamp is the unpadded `%d` year followed by `/MM/DD hh:mm:ss`; every field reads back as the time it came from, and there is no newline or NUL |
| Timestamp.TodayYearReadsBack | src/server.c:352 | `atoi` of a timestamp is its year |
| Timestamp.TodayFixedWidth | src/server.c:345-374 | for four-digit years the timestamp is 19 characters, with separators at fixed places |
| Logger.StringDataFits | src/server.c:288 | the value range allowed by the as-written buffer is exactly the values whose `%d` text takes at most nine characters |
| Logger.IntTextFits | src/server.c:288 | the `%d` text of any `int` takes at most eleven characters, so a 12-byte `string_data` is enough |
| Logger.InitialCounters | src/server.c:110 | every counter starts at zero |
| Logger.FormatLineReadsBack | src/server.c:311-316 | a log line reads back field by field: nine digits with the sequence number, a space, the timestamp, `" Value: "`, the value's text, and one final newline |
| Logger.LoggedValueReadsBack | src/server.c:314-315 | `atoi` of the text after `" Value: "` is the logged value |
| Logger.FormatLineEndsOnce | src/server.c:316 | the only newline of a log line is its last character, and the line has no NUL |
| Logger.FormatLineFits | src/server.c:287-316 | a log line fits `error_info` with room for its NUL, and its first nine digits read as its sequence number |
| Logger.Bump | src/server.c:300 | `++error_index[flag]` raises that counter by one and leaves every other counter alone |
| Logger.Record | src/server.c:300-316 | the category's counter goes up by one and the line carries the new number |
| Logger.WriteLine | src/server.c:324-331 | the write loop emits a prefix of the buffer: it ends right after the first position whose C string is `"\n"`, or at the end of the buffer |
| Logger.StopsAtLineEnd | src/server.c:302-331 | in a zero-filled buffer holding one line, the stop test fires first at the line's newline |
| Logger.WritesWholeLine | src/server.c:302-331 | for such a buffer, anything the write loop can emit is exactly the line |
| Logger.WriteBuffered | src/server.c:302-331 | a line copied into the zeroed `error_info` buffer and sent through the write loop comes out exactly as the line |
| Logger.RecordError | src/server.c:282-333 | `record_error` end to end: one counter goes up by one, the others keep their value, and the bytes written are exactly the formatted line |
| Logger.LogPath | src/server.c:76-95 | the log file name is `error/[MMDD]error_US.txt` or `error/[MMDD]error_CDS.txt`, with the one-based month and the day |
| Registry.Initial | src/server.c:53-54 | the table starts with no live entries |
| Registry.Register | src/server.c:151-153 | registering appends the socket to the live entries and leaves the slots after it unchanged |
| Registry.FirstIndex | src/server.c:226-227 | the search finds the first live entry equal to the socket, or reports none |
| Registry.Spliced | src/server.c:226-230 | slot by slot after the removal loop: the match and every slot before it keep their value, the live slots after the match hold the old entries one further on, nothing changes without a match, and the slots from the old count on are untouched |
| Registry.Remove | src/server.c:224-235 | the removal loop as written: the count always drops by one; slots strictly between the match and the old count take their right neighbour; every other slot, the match included, keeps its value |
| Registry.RemoveDropsSuccessor | src/server.c:228-230 | the live entry removal loses is the one after the match (the match itself only when it is last) |
| Registry.RemoveKeepsMatchedHandle | src/server.c:228-230 | when the match is not the last live entry, the disconnected socket is still live afterwards |
| Registry.RemoveAbsent | src/server.c:226-234 | removing a socket that is not live changes no slot, yet the count still drops |
| Registry.RemoveCounterexample | src/server.c:224-235 | with sockets 7 and 8 registered, removing 7 leaves the live table `[7]` |
| Registry.Deregister | src/server.c:224-235 | the corrected removal drops the first match, keeps the order of the rest, and changes nothing when the socket is absent; the live multiset loses exactly one copy of the socket |
| Registry.DropAtMultiset | src/server.c:228-230 | dropping one position removes exactly that element from the multiset |
| Registry.DeregisterUndoesRegister | src/server.c:151-153 | corrected removal undoes registering a socket that was not yet in the table |
| Handler.Init | src/server.c:110 | counters are zero and no log entries exist |
| Handler.EventPerformable | src/server.c:198-219 | every well-defined read leads to a decision the logger can carry out: a log exactly with an alert, in the alert's category |
| Handler.Step | src/server.c:198-219 | each category gains one log entry and one count exactly when the reply is its alert; earlier entries are untouched; only a logged decision needs its own counter below the nine-digit limit |
| Handler.StepRecords | src/server.c:198-219 | only a logged message changes the state; its counter goes up by one; its log gains one entry numbered with the new count; the other log is unchanged |
| Handler.StepWritesRecordedLine | src/server.c:300-316 | the line a logged message adds is the one `record_error` builds for it |
| Handler.Served | src/server.c:182 | the loop serves exactly the reads before the first empty one |
| Handler.HeadDefined | src/server.c:182-219 | if every served read is well defined and each counter has room for its own category's served alerts, the first read's decision can be carried out |
| Handler.NextDefined | src/server.c:182-222 | those conditions still hold for the rest of the stream once the counters have moved on by the first read's alerts |
| Handler.Run | src/server.c:182-222 | the read loop serves the reads before the first empty one, one reply entry each; each log and counter grow by that category's alert count, and earlier entries are never touched (what each reply and each new entry holds is stated by `Handler.RunReplies` and `Handler.RunLogs`) |
| Handler.RunUnfold | src/server.c:182-222 | a run is the first served read's step followed by the run of the remaining reads, its reply first |
| Handler.Replies | src/server.c:182-219 | the replies for a stream, defined without any state: one per served read, the `i`-th being the decision of message `i` |
| Handler.RunRepliesAre | src/server.c:182-222 | the read loop's replies are exactly `Replies`: counters and logs never influence what is written back |
| Handler.RunReplyTail | src/server.c:182-219 | a run's replies are the first served read's reply followed by the replies of the rest of the stream |
| Handler.RunReplyAt | src/server.c:182-219 | the reply to the `i`-th served read is the one `handle_clnt` decides for that message alone |
| Handler.RunReplies | src/server.c:182-219 | every served read gets the reply its own message decides |
| Handler.StepAppends | src/server.c:198-219 | one step appends to a category's log exactly that message's alert entry, numbered after the old counter, and the counter grows by the entries appended |
| Handler.RunLogs | src/server.c:182-222 | after a run, each log is the old log followed by one entry for each served alert of its category, in order, carrying the read's clock and value and numbered on from the old counter |
| Handler.AlertEntriesNumbered | src/server.c:300 | the alert entries of a run are numbered consecutively after the counter they start from |
| Handler.StepKeepsNumbered | src/server.c:300 | one step keeps a log numbered 1..k with k its counter |
| Handler.RunKeepsNumbered | src/server.c:182-222 | numbering 1..k survives any run of the read loop |
| Handler.FromStartGapless | src/server.c:110 | from start-up, after any run, a log has one line per alert, and the lines' nine-digit numbers read 1, 2, ..., k in order |
| Handler.IgnoredMessageKeepsServing | src/server.c:217-222 | a message of an unknown category changes nothing and the loop goes on to the next read |
| Handler.QuietReadAtFullCounter | src/server.c:203-206 | with the light counter already at 999999999, the read `"1000"` is still served: it is answered `OK` and changes nothing |
| Handler.HandleClient | src/server.c:182-235 | a client's life: the read loop, then the corrected removal, which takes exactly one copy of the socket out of the live table |

## Left out

- Sockets, `accept`, `read`, `write`, `close`, the thread per client and the mutex are not modelled. One client's reads are a list of messages, and the handlers run one after another.
- The data race on the socket handle is not modelled. `main` passes `&clnt_sock` to the thread, and the next `accept` may overwrite it before the thread reads it.
- The counter is incremented at line 300, before the mutex is taken at line 304. Concurrent increments are not modelled.
- `time`, `localtime` and `open` are not modelled. The clock arrives as `struct tm` fields, and the bytes written to a log file are returned instead of written.
- `error_handling` is not modelled: it prints to stderr and exits when a `write` or `open` fails. Every `write` is assumed to succeed.
- The `fputs` echo of each message to stderr and the `printf` of the client address are not modelled.
- Handler.EventDefined: a message must read as a C `int` under `atoi`, because an overflowing `atoi` is undefined behaviour in C.
- Logger.Record: requires the counter below 999999999. The tenth digit of `%09d` would overflow `error_num[10]`.
- Timestamp.ValidTm: requires the printed year to fit `y[5]`. Years outside -999..9999 would overflow it.
- Registry.Register: requires a free slot. The code has no bound check at line 152.
- Registry.Remove: requires that the loop does not read `clnt_socks[MAX_CLNT]`. For a full table with the match before the last slot, the as-written loop reads one element past the array, which is undefined behaviour.
- Registry.Deregister: leaves the table unchanged for an absent socket. The code still decrements the count at line 234 (`Registry.RemoveAbsent`), and its comments do not address this case.
- The `string_data` buffer is modelled at its corrected size of 12 bytes (see the findings). `Logger.FitsStringData` records the as-written limit.

## Findings

| source | as written | input that shows it | evidently intended | confidence | as-written member | corrected member |
|---|---|---|---|---|---|---|
| src/server.c:276 | `write(clnt_sock, "Z", 9)` sends a 2-byte literal but asks for 9 bytes | any message of category 2, e.g. `"72"` | send the `"DETECTED"` the comment on line 276 names, and its NUL: 9 bytes | not executed | Protocol.ServoWriteOverReads | Protocol.Payload |
| src/server.c:228-230 | `while (i++ < clnt_cnt - 1) clnt_socks[i] = clnt_socks[i + 1];` starts copying one slot late | sockets 7 and 8 registered, then 7 disconnects: the live table is `[7]` | drop the matching socket and shift the rest left | not executed | Registry.RemoveCounterexample | Registry.Deregister |
| src/server.c:288-301 | `char string_data[10]` receives `sprintf("%d")` of any logged `int` value | message `-1000000000`: category 0, value -100000000, whose `%d` text has 10 characters plus NUL | a buffer that holds every `int`'s text, 12 bytes | not executed | Scenarios.StringDataOverflow | Logger.IntTextFits |
