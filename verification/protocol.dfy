/**
 * The message protocol of `handle_clnt`: one received chunk is read as a number `n` by `atoi`;
 * its last decimal digit (C `%`) is the sensor category and the rest (C `/`) is the sensor value.
 * The category and value decide the reply written back and whether an error is logged.
 */
module Protocol {
  import opened CArith
  import opened CText

  /** Ultrasonic distance below which the buzzer is switched on. */
  const NearPoint: int := 10
  /** Light level below which the LED is switched on. */
  const DarkPoint: int := 400

  /** What the handler writes back to the client for one message. */
  datatype Reply = Ok | BuzOn | LedOn | Servo | NoReply

  /** A decoded message: `flag` selects the sensor (0 ultrasonic, 1 light, 2 RFID). */
  datatype Reading = Reading(flag: int, value: int)

  /** Whether the message is also recorded in a category's error log, and with which value. */
  datatype LogRequest = NoLog | Log(category: int, value: int)

  datatype Action = Action(reply: Reply, log: LogRequest)

  /** `flag = n % 10; value = n / 10` with C's truncating operators. */
  function Decode(n: int): (m: Reading)
    ensures m.value * 10 + m.flag == n
    ensures -10 < m.flag < 10
    ensures n >= 0 ==> 0 <= m.flag && m.value == n / 10
    ensures n < 0 ==> m.flag <= 0 && m.value == -((-n) / 10)
  {
    Reading(CMod(n, 10), CDiv(n, 10))
  }

  /** The branch structure of `handle_clnt` for one decoded message. */
  function Dispatch(m: Reading): (a: Action)
    ensures a.reply == BuzOn <==> m.flag == 0 && m.value < NearPoint
    ensures a.reply == LedOn <==> m.flag == 1 && m.value < DarkPoint
    ensures a.reply == Ok <==> (m.flag == 0 && m.value >= NearPoint) || (m.flag == 1 && m.value >= DarkPoint)
    ensures a.reply == Servo <==> m.flag == 2
    ensures a.reply == NoReply <==> m.flag != 0 && m.flag != 1 && m.flag != 2
    ensures a.log != NoLog <==> a.reply == BuzOn || a.reply == LedOn
    ensures a.log != NoLog ==> a.log == Log(m.flag, m.value)
  {
    if m.flag == 0 then
      if m.value < NearPoint then Action(BuzOn, Log(0, m.value)) else Action(Ok, NoLog)
    else if m.flag == 1 then
      if m.value < DarkPoint then Action(LedOn, Log(1, m.value)) else Action(Ok, NoLog)
    else if m.flag == 2 then
      Action(Servo, NoLog)
    else
      Action(NoReply, NoLog)
  }

  /** One message, from the received characters to the decision. */
  function HandleMessage(msg: string): Action {
    Dispatch(Decode(Atoi(msg)))
  }

  /**
   * The decision for one message in terms of the number `n` that `atoi` reads from it: the
   * reply follows `n % 10` and `n / 10` as C computes them, and a logged category and value
   * put back together give `n`.
   */
  lemma HandleMessageDecides(msg: string)
    ensures var n, a := Atoi(msg), HandleMessage(msg);
      && (a.reply == BuzOn <==> CMod(n, 10) == 0 && CDiv(n, 10) < NearPoint)
      && (a.reply == LedOn <==> CMod(n, 10) == 1 && CDiv(n, 10) < DarkPoint)
      && (a.reply == Ok <==> (CMod(n, 10) == 0 && CDiv(n, 10) >= NearPoint) || (CMod(n, 10) == 1 && CDiv(n, 10) >= DarkPoint))
      && (a.reply == Servo <==> CMod(n, 10) == 2)
      && (a.reply == NoReply <==> CMod(n, 10) != 0 && CMod(n, 10) != 1 && CMod(n, 10) != 2)
      && (a.log.Log? <==> a.reply == BuzOn || a.reply == LedOn)
      && (a.log.Log? ==> a.log.value * 10 + a.log.category == n)
  {
    var m := Decode(Atoi(msg));
    assert HandleMessage(msg) == Dispatch(m);
  }

  /** The preconditions C puts on one message: `atoi`'s result must fit an `int`. */
  predicate ParsesInRange(msg: string) {
    InInt(Atoi(msg))
  }

  // ---------------------------------------------------------------------------
  // Reply bytes

  /**
   * The string literal each reply writes, with `send_to_servo` sending the `"DETECTED"` its
   * comment at line 276 names. Every literal is plain text, and only the missing reply is empty.
   */
  function Literal(r: Reply): (s: string)
    ensures Plain(s)
    ensures s == [] <==> r == NoReply
  {
    match r
    case Ok => "OK"
    case BuzOn => "BUZ_ON"
    case LedOn => "LED_ON"
    case Servo => "DETECTED"
    case NoReply => ""
  }

  /**
   * The byte count each reply passes to `write`, none for an unknown category. With the
   * `"DETECTED"` literal every count is exactly the literal plus its terminating NUL.
   */
  function WriteCount(r: Reply): (k: nat)
    ensures k == 0 <==> r == NoReply
    ensures r != NoReply ==> k == |Literal(r)| + 1
  {
    match r
    case Ok => 3
    case BuzOn => 7
    case LedOn => 7
    case Servo => 9
    case NoReply => 0
  }

  /** The literal `send_to_servo` actually writes. */
  const ServoLiteralAsWritten: string := "Z"

  /**
   * The bytes on the wire: the literal with its terminating NUL, nothing for an unknown
   * category. Every count passed to `write` is exactly the literal plus its terminator.
   */
  function Payload(r: Reply): (bytes: string)
    ensures |bytes| == WriteCount(r)
    ensures r != NoReply ==> CString(bytes) == Literal(r) && bytes[|bytes| - 1] == '\0'
  {
    if r == NoReply then []
    else
      CStringOfTerminated(Literal(r), []);
      assert Literal(r) + "\0" + [] == Literal(r) + "\0";
      Literal(r) + "\0"
  }

  /** As written, `send_to_servo` asks `write` for 9 bytes of the 2-byte literal `"Z"`. */
  lemma ServoWriteOverReads()
    ensures |ServoLiteralAsWritten| + 1 < WriteCount(Servo)
    ensures WriteCount(Servo) - (|ServoLiteralAsWritten| + 1) == 7
  {
  }

  // ---------------------------------------------------------------------------
  // Properties of the protocol

  /** Malformed text (no digits after the white space and sign) is category 0 with value 0: buzzer and a log entry. */
  lemma MalformedMessageBuzzes(msg: string)
    requires |Unsigned(msg)| == 0 || !IsDigit(Unsigned(msg)[0])
    ensures HandleMessage(msg) == Action(BuzOn, Log(0, 0))
  {
    NoDigitsParsesZero(msg);
  }

  /** The thresholds are strict: 10 and 400 are quiet, 9 and 399 raise the alert and log. */
  lemma ThresholdsAreStrict()
    ensures Dispatch(Reading(0, NearPoint)) == Action(Ok, NoLog)
    ensures Dispatch(Reading(0, NearPoint - 1)) == Action(BuzOn, Log(0, NearPoint - 1))
    ensures Dispatch(Reading(1, DarkPoint)) == Action(Ok, NoLog)
    ensures Dispatch(Reading(1, DarkPoint - 1)) == Action(LedOn, Log(1, DarkPoint - 1))
  {
  }

  /** Category 2 always gets the servo reply and never logs, whatever its value. */
  lemma IdentificationNeverLogs(msg: string)
    requires Decode(Atoi(msg)).flag == 2
    ensures HandleMessage(msg) == Action(Servo, NoLog)
  {
  }

  /** A message that is the `%d` text of a number is handled as that number. */
  lemma HandleDecimal(n: int)
    ensures HandleMessage(DecimalString(n)) == Dispatch(Decode(n))
  {
    AtoiDecimalRoundTrip(n, []);
    assert DecimalString(n) + [] == DecimalString(n);
  }
}
