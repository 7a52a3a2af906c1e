/**
 * `record_error`: assigns the next sequence number of a category, builds the log line
 * `<9-digit number> <timestamp> Value: <value>\n` and writes it to that category's log file
 * one byte at a time. Also the date-stamped log file names built at start-up.
 * Opening and writing files is outside the model: the bytes written are returned instead.
 */
module Logger {
  import opened Limits
  import opened CArith
  import opened CText
  import opened Timestamp

  /** Largest sequence number `error_num[10]` holds: nine digits and the NUL. */
  const MaxSeq: int := 999_999_999

  /** Only the ultrasonic (0) and light (1) categories have a counter in use and a log file. */
  predicate LoggedCategory(c: int) {
    c == 0 || c == 1
  }

  /**
   * As written, `string_data[10]` holds the `%d` text of the value and its NUL only for
   * these values (`StringDataFits`); a logged value below -99999999 overflows it.
   */
  predicate FitsStringData(value: int) {
    -99_999_999 <= value <= 999_999_999
  }

  /** The range of `FitsStringData` is exactly the values whose `%d` text has at most nine characters. */
  lemma StringDataFits(value: int)
    ensures FitsStringData(value) <==> |DecimalString(value)| <= 9
  {
    DecimalStringLength(value, 9);
    assert Pow10(8) == 100_000_000 && Pow10(9) == 1_000_000_000;
  }

  /**
   * The corrected buffer: the `%d` text of any `int` takes at most eleven characters, so a
   * `string_data[12]` holds every value `handle_clnt` can pass.
   */
  lemma IntTextFits(value: int)
    requires InInt(value)
    ensures |DecimalString(value)| <= 11
  {
    DecimalStringLength(value, 11);
    assert Pow10(9) == 1_000_000_000;
    assert Pow10(10) == 10 * Pow10(9);
    assert Pow10(11) == 10 * Pow10(10);
  }

  /** `error_index` as the program starts: every counter zero. */
  function InitialCounters(): (c: seq<int>)
    ensures |c| == MaxClnt && forall i :: 0 <= i < MaxClnt ==> c[i] == 0
  {
    seq(MaxClnt, _ => 0)
  }

  /** The sequence number a log line starts with, or -1 if it does not start with nine digits. */
  function SeqNoOf(line: string): int {
    if |line| >= 9 && AllDigits(line[..9]) then DigitsValue(line[..9]) else -1
  }

  /** The text `record_error` assembles in `error_info` (lines 311-316). */
  function FormatLine(seqNo: nat, t: Tm, value: int): (line: string)
    requires seqNo <= MaxSeq && ValidTm(t)
  {
    ZeroPad(seqNo, 9) + " " + Today(t) + " Value: " + DecimalString(value) + "\n"
  }

  /**
   * Read back, a log line gives what it was made from: its first nine digits are the sequence
   * number, the timestamp sits after one space, `atoi` after " Value: " gives the value, and
   * the only newline is the last character.
   */
  lemma FormatLineReadsBack(seqNo: nat, t: Tm, value: int)
    requires seqNo <= MaxSeq && ValidTm(t)
    ensures var line, ts := FormatLine(seqNo, t, value), |Today(t)|;
      && |line| == 9 + 1 + ts + 8 + |DecimalString(value)| + 1
      && AllDigits(line[..9]) && DigitsValue(line[..9]) == seqNo
      && line[9] == ' '
      && line[10..10 + ts] == Today(t)
      && line[10 + ts..18 + ts] == " Value: "
      && line[18 + ts..] == DecimalString(value) + "\n"
      && line[|line| - 1] == '\n' && Plain(line[..|line| - 1])
  {
    LineFields(ZeroPad(seqNo, 9), seqNo, Today(t), DecimalString(value), value);
  }

  /** `atoi` of what follows " Value: " in a log line is the logged value. */
  lemma LoggedValueReadsBack(seqNo: nat, t: Tm, value: int)
    requires seqNo <= MaxSeq && ValidTm(t)
    ensures Atoi(FormatLine(seqNo, t, value)[18 + |Today(t)|..]) == value
  {
    FormatLineReadsBack(seqNo, t, value);
    AtoiDecimalRoundTrip(value, "\n");
  }

  /** The only newline of a log line is its last character, and it holds no NUL. */
  lemma FormatLineEndsOnce(seqNo: nat, t: Tm, value: int)
    requires seqNo <= MaxSeq && ValidTm(t)
    ensures var line := FormatLine(seqNo, t, value);
      |line| > 0 && line[|line| - 1] == '\n' && Plain(line[..|line| - 1])
  {
    FormatLineReadsBack(seqNo, t, value);
  }

  /** A log line fits `error_info` with room for its NUL, and starts with its sequence number. */
  lemma FormatLineFits(seqNo: nat, t: Tm, value: int)
    requires seqNo <= MaxSeq && ValidTm(t) && InInt(value)
    ensures |FormatLine(seqNo, t, value)| <= 49 < BufSiz
    ensures SeqNoOf(FormatLine(seqNo, t, value)) == seqNo
  {
    FormatLineReadsBack(seqNo, t, value);
    YearFits(t);
    IntTextFits(value);
  }

  lemma LineFields(num: string, seqNo: nat, ts: string, v: string, value: int)
    requires seqNo <= MaxSeq
    requires num == ZeroPad(seqNo, 9)
    requires Plain(ts)
    requires v == DecimalString(value)
    ensures var line := num + " " + ts + " Value: " + v + "\n";
      && |line| == 9 + 1 + |ts| + 8 + |v| + 1
      && AllDigits(line[..9]) && DigitsValue(line[..9]) == seqNo
      && line[9] == ' '
      && line[10..10 + |ts|] == ts
      && line[10 + |ts|..18 + |ts|] == " Value: "
      && line[18 + |ts|..] == v + "\n"
      && line[|line| - 1] == '\n' && Plain(line[..|line| - 1])
  {
    NatStringLength(seqNo, 9);
    assert Pow10(9) == 1_000_000_000;
    var head := num + " " + ts + " Value: ";
    var tail := v + "\n";
    HeadFields(num, ts, head);
    TailFields(value, v, tail);
    var line := head + tail;
    assert line == num + " " + ts + " Value: " + v + "\n";
    assert line[..9] == head[..9];
    assert line[10..10 + |ts|] == head[10..10 + |ts|];
    assert line[10 + |ts|..18 + |ts|] == head[10 + |ts|..];
    assert line[18 + |ts|..] == tail;
    assert line[..|line| - 1] == head + v;
    PlainConcat(head, v);
  }

  lemma HeadFields(num: string, ts: string, head: string)
    requires |num| == 9 && AllDigits(num) && Plain(ts)
    requires head == num + " " + ts + " Value: "
    ensures |head| == 18 + |ts|
    ensures head[..9] == num && head[9] == ' '
    ensures head[10..10 + |ts|] == ts && head[10 + |ts|..] == " Value: "
    ensures Plain(head)
  {
    DigitsArePlain(num);
    PlainConcat(num, " ");
    PlainConcat(num + " ", ts);
    PlainConcat(num + " " + ts, " Value: ");
  }

  lemma TailFields(value: int, v: string, tail: string)
    requires v == DecimalString(value) && tail == v + "\n"
    ensures Plain(v)
    ensures tail[|tail| - 1] == '\n' && tail[..|tail| - 1] == v
  {
    DecimalStringIsPlain(value);
  }

  datatype Recorded = Recorded(counters: seq<int>, line: string)

  /** What one call of `record_error` puts into a log line: its number, the clock and the value. */
  datatype Entry = Entry(seqNo: nat, tm: Tm, value: int)

  /** An entry whose line the buffers of `record_error` can hold. */
  predicate Writable(e: Entry) {
    e.seqNo <= MaxSeq && ValidTm(e.tm) && InInt(e.value)
  }

  /** The text of an entry's line in the log file. */
  function Line(e: Entry): string
    requires Writable(e)
  {
    FormatLine(e.seqNo, e.tm, e.value)
  }

  /** `++error_index[cat]`: that one counter goes up by one and every other counter keeps its value. */
  function Bump(counters: seq<int>, cat: int): (c': seq<int>)
    requires 0 <= cat < |counters|
    ensures |c'| == |counters|
    ensures c'[cat] == counters[cat] + 1
    ensures forall c :: 0 <= c < |counters| && c != cat ==> c'[c] == counters[c]
  {
    counters[cat := counters[cat] + 1]
  }

  /**
   * `++error_index[flag]` and the line that carries the new number. `error_num[10]` bounds the
   * number to nine digits; the value may be any `int`, with `string_data` widened to 12 bytes.
   */
  function Record(counters: seq<int>, cat: int, value: int, t: Tm): (r: Recorded)
    requires |counters| == MaxClnt && LoggedCategory(cat)
    requires 0 <= counters[cat] < MaxSeq
    requires InInt(value) && ValidTm(t)
    ensures r.counters == Bump(counters, cat)
    ensures SeqNoOf(r.line) == counters[cat] + 1
    ensures r.line == FormatLine(counters[cat] + 1, t, value)
    ensures |r.line| <= 49 < BufSiz
  {
    var n := counters[cat] + 1;
    FormatLineFits(n, t, value);
    Recorded(Bump(counters, cat), FormatLine(n, t, value))
  }

  /**
   * The write loop of `record_error`: it writes `buf[i]` for i = 0, 1, ... and stops right after
   * the position where the C string `&buf[i]` equals "\n", or after the whole buffer.
   */
  method WriteLine(buf: string) returns (written: string)
    requires |buf| == BufSiz
    ensures 0 < |written| <= |buf| && written == buf[..|written|]
    ensures forall j :: 0 <= j < |written| - 1 ==> CString(buf[j..]) != "\n"
    ensures |written| == |buf| || CString(buf[|written| - 1..]) == "\n"
  {
    written := [];
    var i := 0;
    while i < BufSiz
      invariant 0 <= i <= BufSiz
      invariant written == buf[..i]
      invariant forall j :: 0 <= j < i ==> CString(buf[j..]) != "\n"
    {
      written := written + [buf[i]];
      if CString(buf[i..]) == "\n" {
        return;
      }
      i := i + 1;
    }
  }

  /** In a zero-filled buffer holding one line, the stop test of the write loop fires exactly at its newline. */
  lemma StopsAtLineEnd(line: string, buf: string)
    requires 0 < |line| < BufSiz
    requires line[|line| - 1] == '\n' && Plain(line[..|line| - 1])
    requires buf == line + seq(BufSiz - |line|, _ => '\0')
    ensures forall j :: 0 <= j < |line| - 1 ==> CString(buf[j..]) != "\n"
    ensures CString(buf[|line| - 1..]) == "\n"
  {
    forall j | 0 <= j < |line| - 1
      ensures CString(buf[j..]) != "\n"
    {
      assert buf[j] == line[..|line| - 1][j];
      CStringIsPrefix(buf[j..]);
      assert CString(buf[j..])[0] == buf[j];
    }
    var rest := seq(BufSiz - |line| - 1, _ => '\0');
    assert buf[|line| - 1..] == "\n" + "\0" + rest;
    CStringOfTerminated("\n", rest);
  }

  /** Whatever the write loop may emit for a zero-filled buffer holding one line is that line. */
  lemma WritesWholeLine(line: string, buf: string, written: string)
    requires 0 < |line| < BufSiz
    requires line[|line| - 1] == '\n' && Plain(line[..|line| - 1])
    requires buf == line + seq(BufSiz - |line|, _ => '\0')
    requires 0 < |written| <= |buf| && written == buf[..|written|]
    requires forall j :: 0 <= j < |written| - 1 ==> CString(buf[j..]) != "\n"
    requires |written| == |buf| || CString(buf[|written| - 1..]) == "\n"
    ensures written == line
  {
    StopsAtLineEnd(line, buf);
    assert |written| == |line|;
  }

  /**
   * `record_error` end to end: the counter of `cat` goes up by one, nothing else changes,
   * and the bytes written to the log file are exactly the line, ending at its newline.
   */
  method RecordError(counters: seq<int>, cat: int, value: int, t: Tm) returns (counters': seq<int>, written: string)
    requires |counters| == MaxClnt && LoggedCategory(cat)
    requires 0 <= counters[cat] < MaxSeq
    requires InInt(value) && ValidTm(t)
    ensures |counters'| == MaxClnt
    ensures counters'[cat] == counters[cat] + 1
    ensures forall c :: 0 <= c < MaxClnt && c != cat ==> counters'[c] == counters[c]
    ensures written == FormatLine(counters'[cat], t, value)
  {
    var r := Record(counters, cat, value, t);
    FormatLineEndsOnce(counters[cat] + 1, t, value);
    written := WriteBuffered(r.line);
    counters' := r.counters;
  }

  /** `line` copied into the zeroed `buf[BUF_SIZE]` and sent through the write loop. */
  method WriteBuffered(line: string) returns (written: string)
    requires 0 < |line| < BufSiz
    requires line[|line| - 1] == '\n' && Plain(line[..|line| - 1])
    ensures written == line
  {
    var buf := line + seq(BufSiz - |line|, _ => '\0');
    written := WriteLine(buf);
    WritesWholeLine(line, buf, written);
  }

  /**
   * The log file name for a category, from the start-up date:
   * `error/[MMDD]error_US.txt` (ultrasonic) or `error/[MMDD]error_CDS.txt` (light).
   */
  function LogPath(t: Tm, cat: int): (p: string)
    requires 0 <= t.mon <= 11 && 1 <= t.mday <= 31 && LoggedCategory(cat)
    ensures |p| == if cat == 0 then 24 else 25
    ensures p[..7] == "error/["
    ensures AllDigits(p[7..9]) && DigitsValue(p[7..9]) == t.mon + 1
    ensures AllDigits(p[9..11]) && DigitsValue(p[9..11]) == t.mday
    ensures p[11..] == if cat == 0 then "]error_US.txt" else "]error_CDS.txt"
  {
    var mm, dd := Pad2(t.mon + 1), Pad2(t.mday);
    if cat == 0 then
      var p := "error/[" + mm + dd + "]error_US.txt";
      assert p[7..9] == mm && p[9..11] == dd;
      p
    else
      var p := "error/[" + mm + dd + "]error_CDS.txt";
      assert p[7..9] == mm && p[9..11] == dd;
      p
  }
}
