/** Concrete messages worked through the protocol: sample messages per category and the negative cases. */
module Scenarios {
  import opened CText
  import opened Protocol
  import opened Logger

  lemma ReadsAs(n: int, msg: string)
    requires msg == DecimalString(n)
    ensures Atoi(msg) == n
  {
    AtoiDecimalRoundTrip(n, []);
    assert msg + [] == msg;
  }

  /** "50": value 5 is nearer than 10, so the buzzer goes on and 5 is logged in category 0. */
  lemma Near50()
    ensures HandleMessage("50") == Action(BuzOn, Log(0, 5))
  {
    ReadsAs(50, "50");
  }

  /** "1000": value 100 is not near, so the reply is "OK" and nothing is logged. */
  lemma Far1000()
    ensures HandleMessage("1000") == Action(Ok, NoLog)
  {
    ReadsAs(1000, "1000");
  }

  /** "3001": value 300 is darker than 400, so the LED goes on and 300 is logged in category 1. */
  lemma Dark3001()
    ensures HandleMessage("3001") == Action(LedOn, Log(1, 300))
  {
    ReadsAs(3001, "3001");
  }

  /** "5001": value 500 is bright enough, so the reply is "OK". */
  lemma Bright5001()
    ensures HandleMessage("5001") == Action(Ok, NoLog)
  {
    ReadsAs(5001, "5001");
  }

  /** "72": category 2, the servo reply and no log entry. */
  lemma Identify72()
    ensures HandleMessage("72") == Action(Servo, NoLog)
  {
    ReadsAs(72, "72");
  }

  /** C truncation: "-50" is category 0 with value -5, so it buzzes and logs -5. */
  lemma Negative50()
    ensures Decode(Atoi("-50")) == Reading(0, -5)
    ensures HandleMessage("-50") == Action(BuzOn, Log(0, -5))
  {
    ReadsAs(-50, "-50");
  }

  /** C truncation: "-3" has flag -3, which no branch handles: no reply, no log. */
  lemma Negative3()
    ensures Decode(Atoi("-3")) == Reading(-3, 0)
    ensures HandleMessage("-3") == Action(NoReply, NoLog)
  {
    ReadsAs(-3, "-3");
  }

  /**
   * "-1000000000" is a valid `int`, category 0 with value -100000000: it buzzes and is logged,
   * but the `%d` text of that value takes ten characters, more than `string_data` can hold.
   */
  lemma StringDataOverflow()
    ensures var msg := DecimalString(-1_000_000_000);
      && ParsesInRange(msg)
      && HandleMessage(msg) == Action(BuzOn, Log(0, -100_000_000))
    ensures |DecimalString(-100_000_000)| == 10 && !FitsStringData(-100_000_000)
  {
    var n := -1_000_000_000;
    ReadsAs(n, DecimalString(n));
    assert Decode(n) == Reading(0, -100_000_000);
    TenCharacters(-100_000_000);
  }

  lemma TenCharacters(v: int)
    requires -1_000_000_000 < v <= -100_000_000
    ensures |DecimalString(v)| == 10
  {
    StringDataFits(v);
    DecimalStringLength(v, 10);
    assert Pow10(10) == 10 * Pow10(9);
    assert Pow10(9) == 1_000_000_000;
  }
}
