/**
 * One client's read loop in `handle_clnt`, run sequentially: every completed read is one
 * message, answered and possibly logged; a read of zero bytes (or an error) ends the loop,
 * after which the client is removed from the registry.
 * Socket reads and writes, threads and the mutex are outside the model.
 */
module Handler {
  import opened Limits
  import opened CArith
  import opened CText
  import opened Timestamp
  import opened Protocol
  import opened Logger
  import opened Registry

  /**
   * The shared state the handlers touch: `error_index` and the entries each log file has
   * received; the file's text is the `Line` of each entry in order.
   */
  datatype State = State(counters: seq<int>, nearLog: seq<Entry>, darkLog: seq<Entry>)

  predicate ValidState(s: State) {
    |s.counters| == MaxClnt && 0 <= s.counters[0] && 0 <= s.counters[1]
  }

  /** The entries written to the log file of category `c` (0 ultrasonic, 1 light). */
  function LogOf(s: State, c: int): seq<Entry>
    requires LoggedCategory(c)
  {
    if c == 0 then s.nearLog else s.darkLog
  }

  /** Counters at zero (line 110) and both log files without new lines. */
  function Init(): (s: State)
    ensures ValidState(s) && s.counters[0] == 0 && s.counters[1] == 0
    ensures LogOf(s, 0) == [] && LogOf(s, 1) == []
  {
    State(InitialCounters(), [], [])
  }

  /** One completed read and the local time `record_error` would see while handling it. */
  datatype Event = Event(msg: string, tm: Tm)

  /**
   * What one read must satisfy for C to define the behaviour: at most 99 bytes, `atoi`'s value
   * in `int` range, a clock from `localtime`.
   */
  predicate EventDefined(e: Event) {
    && |e.msg| < BufSiz
    && ParsesInRange(e.msg)
    && ValidTm(e.tm)
  }

  /** 1 when `r` is the reply that comes with a log entry for category `c`, else 0. */
  function AlertOf(r: Reply, c: int): nat {
    if (c == 0 && r == BuzOn) || (c == 1 && r == LedOn) then 1 else 0
  }

  /**
   * A decision `record_error` can carry out: it logs exactly with an alert reply, the buzzer
   * in category 0 and the LED in category 1, with an `int` value.
   */
  predicate Performable(a: Action) {
    && (a.log != NoLog <==> a.reply == BuzOn || a.reply == LedOn)
    && (a.reply == BuzOn ==> a.log.Log? && a.log.category == 0)
    && (a.reply == LedOn ==> a.log.Log? && a.log.category == 1)
    && (a.log.Log? ==> InInt(a.log.value))
  }

  /** Every read the program can receive leads to a decision it can carry out. */
  lemma EventPerformable(e: Event)
    requires EventDefined(e)
    ensures Performable(HandleMessage(e.msg))
  {
    var m := Decode(Atoi(e.msg));
    assert HandleMessage(e.msg) == Dispatch(m);
  }

  /** From `s` to `s'`, category `c` gained `k` entries at the end of its log and `k` on its counter. */
  predicate Grew(s: State, s': State, c: int, k: nat)
    requires ValidState(s) && ValidState(s') && LoggedCategory(c)
  {
    && |LogOf(s', c)| == |LogOf(s, c)| + k
    && LogOf(s', c)[..|LogOf(s, c)|] == LogOf(s, c)
    && s'.counters[c] == s.counters[c] + k
  }

  /**
   * If `a` logs, the counter `record_error` pre-increments for it stays within `error_num`'s
   * nine digits; a decision that logs nothing touches no counter and needs no room.
   */
  predicate Room(s: State, a: Action)
    requires ValidState(s) && Performable(a)
  {
    a.log.Log? ==> s.counters[a.log.category] < MaxSeq
  }

  /**
   * Carrying out one decision at clock `tm`: for an alert, `record_error` numbers the entry with
   * the new count. Each category gains one entry and one count exactly when the reply is its alert.
   */
  function Step(s: State, a: Action, tm: Tm): (s': State)
    requires ValidState(s) && Performable(a) && Room(s, a)
    ensures ValidState(s')
    ensures Grew(s, s', 0, AlertOf(a.reply, 0)) && Grew(s, s', 1, AlertOf(a.reply, 1))
  {
    match a.log
    case NoLog => s
    case Log(c, v) =>
      var entry := Entry(s.counters[c] + 1, tm, v);
      if c == 0 then State(Bump(s.counters, c), s.nearLog + [entry], s.darkLog)
      else State(Bump(s.counters, c), s.nearLog, s.darkLog + [entry])
  }

  /**
   * Only a logged decision changes the state, and then only its own category: the counter
   * goes up by one (`Bump`) and the log receives one entry, numbered with the new count.
   */
  lemma StepRecords(s: State, a: Action, tm: Tm)
    requires ValidState(s) && Performable(a) && Room(s, a) && ValidTm(tm)
    ensures a.log == NoLog ==> Step(s, a, tm) == s
    ensures a.log.Log? ==>
      var c, s' := a.log.category, Step(s, a, tm);
      && s'.counters == Bump(s.counters, c)
      && LogOf(s', c) == LogOf(s, c) + [Entry(s'.counters[c], tm, a.log.value)]
      && Writable(LogOf(s', c)[|LogOf(s, c)|])
      && LogOf(s', 1 - c) == LogOf(s, 1 - c)
  {
  }

  /** The line a logged decision adds to its log file is the one `record_error` builds for it. */
  lemma StepWritesRecordedLine(s: State, a: Action, tm: Tm)
    requires ValidState(s) && Performable(a) && Room(s, a) && ValidTm(tm)
    requires a.log.Log?
    ensures var c, s' := a.log.category, Step(s, a, tm);
      && |LogOf(s', c)| == |LogOf(s, c)| + 1
      && Writable(LogOf(s', c)[|LogOf(s, c)|])
      && Line(LogOf(s', c)[|LogOf(s, c)|]) == Record(s.counters, c, a.log.value, tm).line
  {
    StepRecords(s, a, tm);
  }

  /** Number of replies in `rs` that come with a log entry for category `c`. */
  function Alerts(rs: seq<Reply>, c: int): nat {
    if |rs| == 0 then 0 else AlertOf(rs[0], c) + Alerts(rs[1..], c)
  }

  /**
   * How many reads the loop handles: every read has data up to the first empty one, which ends
   * the loop (or the stream runs out first).
   */
  function Served(evs: seq<Event>): (n: nat)
    ensures n <= |evs|
    ensures forall i :: 0 <= i < n ==> |evs[i].msg| > 0
    ensures n < |evs| ==> |evs[n].msg| == 0
  {
    if |evs| == 0 || |evs[0].msg| == 0 then 0
    else
      var n := 1 + Served(evs[1..]);
      assert forall i :: 1 <= i < n ==> evs[i] == evs[1..][i - 1];
      n
  }

  datatype Outcome = Outcome(state: State, replies: seq<Reply>)

  /**
   * What the reads the loop gets to must satisfy: each served read is defined, and each
   * category's counter has room for one more number per served alert of that category.
   * Quiet and ignored reads use no number; reads after the empty one are never looked at.
   */
  predicate RunDefined(s: State, evs: seq<Event>) {
    && ValidState(s)
    && (forall i :: 0 <= i < Served(evs) ==> EventDefined(evs[i]))
    && s.counters[0] + AlertsIn(evs, 0) <= MaxSeq && s.counters[1] + AlertsIn(evs, 1) <= MaxSeq
  }

  /** How many of the served reads are alerts of category `c`, each costing one number of its counter. */
  function AlertsIn(evs: seq<Event>, c: int): nat
    decreases |evs|
  {
    if |evs| == 0 || |evs[0].msg| == 0 then 0
    else AlertOf(HandleMessage(evs[0].msg).reply, c) + AlertsIn(evs[1..], c)
  }

  /** The first served read is defined, and its decision can be carried out from `s`. */
  lemma HeadDefined(s: State, evs: seq<Event>)
    requires RunDefined(s, evs) && |evs| > 0 && |evs[0].msg| > 0
    ensures EventDefined(evs[0]) && Performable(HandleMessage(evs[0].msg))
    ensures Room(s, HandleMessage(evs[0].msg))
  {
    assert Served(evs) > 0;
    EventPerformable(evs[0]);
  }

  /**
   * After one served read, the rest of the stream is defined from any state whose counters
   * moved on by exactly that read's alerts.
   */
  lemma NextDefined(s: State, evs: seq<Event>, s1: State)
    requires RunDefined(s, evs) && |evs| > 0 && |evs[0].msg| > 0
    requires ValidState(s1)
    requires s1.counters[0] == s.counters[0] + AlertOf(HandleMessage(evs[0].msg).reply, 0)
    requires s1.counters[1] == s.counters[1] + AlertOf(HandleMessage(evs[0].msg).reply, 1)
    ensures RunDefined(s1, evs[1..])
  {
    assert Served(evs) == 1 + Served(evs[1..]);
    forall i | 0 <= i < Served(evs[1..])
      ensures EventDefined(evs[1..][i])
    {
      assert evs[1..][i] == evs[i + 1];
    }
  }

  /**
   * The read loop `while ((str_len = read(...)) > 0)`: handles events until the first empty read.
   * Each served read gets exactly one reply; each category's log and counter grow by the
   * number of its alert replies, and earlier log entries are never touched.
   */
  function Run(s: State, evs: seq<Event>): (o: Outcome)
    requires RunDefined(s, evs)
    ensures ValidState(o.state)
    ensures |o.replies| == Served(evs)
    ensures Grew(s, o.state, 0, Alerts(o.replies, 0)) && Grew(s, o.state, 1, Alerts(o.replies, 1))
    decreases |evs|
  {
    if |evs| == 0 || |evs[0].msg| == 0 then Outcome(s, [])
    else
      var a := HandleMessage(evs[0].msg);
      HeadDefined(s, evs);
      var s1 := Step(s, a, evs[0].tm);
      NextDefined(s, evs, s1);
      var rest := Run(s1, evs[1..]);
      GrewTrans(s, s1, rest.state, 0, AlertOf(a.reply, 0), Alerts(rest.replies, 0));
      GrewTrans(s, s1, rest.state, 1, AlertOf(a.reply, 1), Alerts(rest.replies, 1));
      var o := Outcome(rest.state, [a.reply] + rest.replies);
      assert o.replies[1..] == rest.replies;
      o
  }

  /** One turn of the loop: a served read is answered, then the rest of the stream is run from the state it left. */
  lemma RunUnfold(s: State, evs: seq<Event>)
    requires RunDefined(s, evs) && |evs| > 0 && |evs[0].msg| > 0
    ensures EventDefined(evs[0]) && Performable(HandleMessage(evs[0].msg)) && Room(s, HandleMessage(evs[0].msg))
    ensures var s1 := Step(s, HandleMessage(evs[0].msg), evs[0].tm);
      && RunDefined(s1, evs[1..])
      && Run(s, evs) == Outcome(Run(s1, evs[1..]).state, [HandleMessage(evs[0].msg).reply] + Run(s1, evs[1..]).replies)
  {
    HeadDefined(s, evs);
    NextDefined(s, evs, Step(s, HandleMessage(evs[0].msg), evs[0].tm));
  }

  /**
   * The replies `handle_clnt` writes for a stream, read by read and with no state: the decision
   * of each served message, in order.
   */
  function Replies(evs: seq<Event>): (rs: seq<Reply>)
    ensures |rs| == Served(evs)
    ensures forall i :: 0 <= i < |rs| ==> rs[i] == HandleMessage(evs[i].msg).reply
    decreases |evs|
  {
    if |evs| == 0 || |evs[0].msg| == 0 then []
    else
      var rs := [HandleMessage(evs[0].msg).reply] + Replies(evs[1..]);
      assert forall i :: 1 <= i < |rs| ==> evs[i] == evs[1..][i - 1];
      rs
  }

  /** The run answers exactly `Replies`: the counters and logs never influence a reply. */
  lemma {:induction false} RunRepliesAre(s: State, evs: seq<Event>)
    requires RunDefined(s, evs)
    ensures Run(s, evs).replies == Replies(evs)
    decreases |evs|
  {
    if |evs| > 0 && |evs[0].msg| > 0 {
      var s1 := RunReplyTail(s, evs);
      RunRepliesAre(s1, evs[1..]);
    }
  }

  /** The replies of a run: the first served read's, then those of the rest of the stream from some state. */
  lemma RunReplyTail(s: State, evs: seq<Event>) returns (s1: State)
    requires RunDefined(s, evs) && |evs| > 0 && |evs[0].msg| > 0
    ensures RunDefined(s1, evs[1..])
    ensures Run(s, evs).replies == [HandleMessage(evs[0].msg).reply] + Run(s1, evs[1..]).replies
  {
    RunUnfold(s, evs);
    s1 := Step(s, HandleMessage(evs[0].msg), evs[0].tm);
  }

  /** The reply to the `i`-th read is the one its message decides. */
  lemma RunReplyAt(s: State, evs: seq<Event>, i: nat)
    requires RunDefined(s, evs) && i < Served(evs)
    ensures Run(s, evs).replies[i] == HandleMessage(evs[i].msg).reply
  {
    RunRepliesAre(s, evs);
  }

  /** Every served read is answered with the reply its message decides, in order. */
  lemma RunReplies(s: State, evs: seq<Event>)
    requires RunDefined(s, evs)
    ensures forall i :: 0 <= i < Served(evs) ==> Run(s, evs).replies[i] == HandleMessage(evs[i].msg).reply
  {
    RunRepliesAre(s, evs);
  }

  lemma GrewTrans(s0: State, s1: State, s2: State, c: int, k1: nat, k2: nat)
    requires ValidState(s0) && ValidState(s1) && ValidState(s2) && LoggedCategory(c)
    requires Grew(s0, s1, c, k1) && Grew(s1, s2, c, k2)
    ensures Grew(s0, s2, c, k1 + k2)
  {
    var l0, l1, l2 := LogOf(s0, c), LogOf(s1, c), LogOf(s2, c);
    assert l2[..|l0|] == l2[..|l1|][..|l0|];
  }

  /**
   * Category `c`'s log holds writable entries numbered 1, 2, ..., k in order with k its
   * counter: no gaps, no repeats.
   */
  predicate NumberedFrom1(s: State, c: int)
    requires ValidState(s) && LoggedCategory(c)
  {
    && |LogOf(s, c)| == s.counters[c]
    && (forall i :: 0 <= i < |LogOf(s, c)| ==> Writable(LogOf(s, c)[i]))
    && (forall i :: 0 <= i < |LogOf(s, c)| ==> LogOf(s, c)[i].seqNo == i + 1)
  }

  lemma StepKeepsNumbered(s: State, a: Action, tm: Tm, c: int)
    requires ValidState(s) && Performable(a) && Room(s, a) && ValidTm(tm)
    requires LoggedCategory(c) && NumberedFrom1(s, c)
    ensures NumberedFrom1(Step(s, a, tm), c)
  {
    StepRecords(s, a, tm);
    var s' := Step(s, a, tm);
    var l, l' := LogOf(s, c), LogOf(s', c);
    if a.log.Log? && a.log.category == c {
      forall i | 0 <= i < |l'|
        ensures Writable(l'[i]) && l'[i].seqNo == i + 1
      {
        if i < |l| {
          assert l'[i] == l[i];
        }
      }
    } else {
      assert l' == l && s'.counters[c] == s.counters[c];
    }
  }

  /** Sequence numbering survives any run of the read loop. */
  lemma {:induction false} RunKeepsNumbered(s: State, evs: seq<Event>, c: int)
    requires RunDefined(s, evs)
    requires LoggedCategory(c) && NumberedFrom1(s, c)
    ensures NumberedFrom1(Run(s, evs).state, c)
    decreases |evs|
  {
    if |evs| > 0 && |evs[0].msg| > 0 {
      var a := HandleMessage(evs[0].msg);
      HeadDefined(s, evs);
      var s1 := Step(s, a, evs[0].tm);
      StepKeepsNumbered(s, a, evs[0].tm, c);
      NextDefined(s, evs, s1);
      RunKeepsNumbered(s1, evs[1..], c);
    }
  }

  /** Whether reading `m` is an alert of category `c`: its flag is `c` and its value below that sensor's threshold. */
  predicate IsAlert(m: Reading, c: int) {
    m.flag == c && (if c == 0 then m.value < NearPoint else m.value < DarkPoint)
  }

  /** The entry an alert reading adds to a log whose counter stands at `from`; none otherwise. */
  function AlertEntry(m: Reading, c: int, from: nat, tm: Tm): seq<Entry> {
    if IsAlert(m, c) then [Entry(from + 1, tm, m.value)] else []
  }

  /**
   * The entries category `c`'s log is to receive from the reads `evs` when its counter stands
   * at `from`: one per served read whose message is an alert of that category, in order,
   * numbered `from + 1`, `from + 2`, ..., with the read's clock and the message's value.
   */
  function AlertEntries(evs: seq<Event>, c: int, from: nat): seq<Entry>
    decreases |evs|
  {
    if |evs| == 0 || |evs[0].msg| == 0 then []
    else
      var m := Decode(Atoi(evs[0].msg));
      AlertEntry(m, c, from, evs[0].tm) + AlertEntries(evs[1..], c, from + |AlertEntry(m, c, from, evs[0].tm)|)
  }

  /** One served read contributes its own alert entry; the rest is numbered on from the counter it leaves. */
  lemma AlertEntriesUnfold(evs: seq<Event>, c: int, from: nat, next: nat)
    requires |evs| > 0 && |evs[0].msg| > 0
    requires next == from + |AlertEntry(Decode(Atoi(evs[0].msg)), c, from, evs[0].tm)|
    ensures AlertEntries(evs, c, from) == AlertEntry(Decode(Atoi(evs[0].msg)), c, from, evs[0].tm) + AlertEntries(evs[1..], c, next)
  {
  }

  /** Carrying out the decision for reading `m` appends its alert entry, if any, to category `c`'s log. */
  lemma StepAppends(s: State, m: Reading, tm: Tm, c: int)
    requires ValidState(s) && ValidTm(tm) && LoggedCategory(c) && Performable(Dispatch(m)) && Room(s, Dispatch(m))
    ensures var s1, added := Step(s, Dispatch(m), tm), AlertEntry(m, c, s.counters[c], tm);
      && LogOf(s1, c) == LogOf(s, c) + added
      && s1.counters[c] == s.counters[c] + |added|
  {
    var a := Dispatch(m);
    StepRecords(s, a, tm);
    if IsAlert(m, c) {
      assert a.log == Log(c, m.value);
    } else {
      assert LogOf(Step(s, a, tm), c) + [] == LogOf(s, c);
    }
  }

  /** Appending in two steps is appending the two parts at once. */
  lemma Chain(x: seq<Entry>, l0: seq<Entry>, l1: seq<Entry>, h: seq<Entry>, t: seq<Entry>, whole: seq<Entry>)
    requires x == l1 + t && l1 == l0 + h && whole == h + t
    ensures x == l0 + whole
  {
  }

  /**
   * What a run writes to category `c`'s log: the entries it already had, then exactly the
   * alert entries of the served reads, numbered on from the counter.
   */
  lemma {:induction false} RunLogs(s: State, evs: seq<Event>, c: int)
    requires RunDefined(s, evs) && LoggedCategory(c)
    ensures LogOf(Run(s, evs).state, c) == LogOf(s, c) + AlertEntries(evs, c, s.counters[c])
    decreases |evs|
  {
    if |evs| == 0 || |evs[0].msg| == 0 {
      assert LogOf(s, c) + [] == LogOf(s, c);
    } else {
      var e := evs[0];
      RunUnfold(s, evs);
      var m := Decode(Atoi(e.msg));
      assert HandleMessage(e.msg) == Dispatch(m);
      var s1 := Step(s, HandleMessage(e.msg), e.tm);
      StepAppends(s, m, e.tm, c);
      RunLogs(s1, evs[1..], c);
      AlertEntriesUnfold(evs, c, s.counters[c], s1.counters[c]);
      var head, tail := AlertEntry(m, c, s.counters[c], e.tm), AlertEntries(evs[1..], c, s1.counters[c]);
      Chain(LogOf(Run(s, evs).state, c), LogOf(s, c), LogOf(s1, c), head, tail, AlertEntries(evs, c, s.counters[c]));
    }
  }

  /** The alert entries are numbered on from the counter without gaps: the `j`-th carries `from + j + 1`. */
  lemma {:induction false} AlertEntriesNumbered(evs: seq<Event>, c: int, from: nat)
    ensures forall j :: 0 <= j < |AlertEntries(evs, c, from)| ==> AlertEntries(evs, c, from)[j].seqNo == from + j + 1
    decreases |evs|
  {
    if |evs| > 0 && |evs[0].msg| > 0 {
      var head := AlertEntry(Decode(Atoi(evs[0].msg)), c, from, evs[0].tm);
      var next := from + |head|;
      AlertEntriesUnfold(evs, c, from, next);
      AlertEntriesNumbered(evs[1..], c, next);
      NumberedAppend(head, AlertEntries(evs[1..], c, next), from);
    }
  }

  /** A block numbered `from + 1, ...` followed by one numbered on from its end is numbered on from `from`. */
  lemma NumberedAppend(head: seq<Entry>, tail: seq<Entry>, from: nat)
    requires forall j :: 0 <= j < |head| ==> head[j].seqNo == from + j + 1
    requires forall j :: 0 <= j < |tail| ==> tail[j].seqNo == from + |head| + j + 1
    ensures forall j :: 0 <= j < |head + tail| ==> (head + tail)[j].seqNo == from + j + 1
  {
    forall j | |head| <= j < |head + tail|
      ensures (head + tail)[j].seqNo == from + j + 1
    {
      assert (head + tail)[j] == tail[j - |head|];
    }
  }

  /**
   * From start-up, after any run, category `c`'s log file has one line per alert reply,
   * and the nine digits that start its lines read 1, 2, ..., k in order.
   */
  lemma FromStartGapless(evs: seq<Event>, c: int)
    requires RunDefined(Init(), evs) && LoggedCategory(c)
    ensures var log := LogOf(Run(Init(), evs).state, c);
      && |log| == Alerts(Run(Init(), evs).replies, c)
      && (forall i :: 0 <= i < |log| ==> Writable(log[i]))
      && (forall i :: 0 <= i < |log| ==> Writable(log[i]) && SeqNoOf(Line(log[i])) == i + 1)
  {
    RunKeepsNumbered(Init(), evs, c);
    var log := LogOf(Run(Init(), evs).state, c);
    forall i | 0 <= i < |log|
      ensures Writable(log[i]) && SeqNoOf(Line(log[i])) == i + 1
    {
      FormatLineFits(log[i].seqNo, log[i].tm, log[i].value);
    }
  }

  /** A message of an unknown category is consumed silently and the loop goes on to the next read. */
  lemma IgnoredMessageKeepsServing(s: State, e: Event, evs: seq<Event>)
    requires EventDefined(e) && |e.msg| > 0 && RunDefined(s, evs)
    requires var f := Decode(Atoi(e.msg)).flag; f != 0 && f != 1 && f != 2
    ensures RunDefined(s, [e] + evs)
    ensures Run(s, [e] + evs) == Outcome(Run(s, evs).state, [NoReply] + Run(s, evs).replies)
  {
    var evs' := [e] + evs;
    assert evs'[1..] == evs;
    assert RunDefined(s, evs');
  }

  /**
   * A quiet reading needs no free sequence number: with the light counter already at its
   * nine-digit limit, `"1000"` is still served, replied `OK` to, and changes nothing.
   */
  lemma QuietReadAtFullCounter(t: Tm)
    requires ValidTm(t)
    ensures var s, evs := State(InitialCounters()[1 := MaxSeq], [], []), [Event("1000", t)];
      && RunDefined(s, evs)
      && Run(s, evs) == Outcome(s, [Ok])
  {
    var s, evs := State(InitialCounters()[1 := MaxSeq], [], []), [Event("1000", t)];
    AtoiDecimalRoundTrip(1000, []);
    assert DecimalString(1000) + [] == "1000";
    assert HandleMessage("1000") == Action(Ok, NoLog);
    assert Served(evs[1..]) == 0 && AlertsIn(evs[1..], 0) == 0 && AlertsIn(evs[1..], 1) == 0;
    assert Served(evs) == 1;
    assert RunDefined(s, evs);
    RunUnfold(s, evs);
  }

  /**
   * The connection lifecycle of `handle_clnt`: serve reads until the stream ends, then take
   * the socket out of the registry, with the removal corrected to drop the socket itself.
   */
  method HandleClient(reg: Table, s: State, h: int, evs: seq<Event>) returns (reg': Table, o: Outcome)
    requires Valid(reg) && RunDefined(s, evs)
    ensures o == Run(s, evs) && |o.replies| == Served(evs)
    ensures Valid(reg')
    ensures h in Live(reg) ==> reg'.count == reg.count - 1
    ensures multiset(Live(reg')) == multiset(Live(reg)) - multiset{h}
  {
    o := Run(s, evs);
    reg' := Deregister(reg, h);
  }
}
