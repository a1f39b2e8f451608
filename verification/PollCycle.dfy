/** The poll cycle end to end: the daemon's requests through the firmware's assembler,
    lookup and printer, and the replies back through the daemon's framer and parser, over
    any number of polls, turns of the firmware's loop and reads of the daemon's. */
module PollCycle {
  import opened Words
  import opened Text
  import opened Decimal
  import opened LineAssembler
  import opened Firmware
  import UartBuffer
  import CmdParse
  import opened PMon

  const REQUEST := "volt pri\r\nvolt sec\r\n"

  function Requests(k: nat): string { if k == 0 then "" else Requests(k - 1) + REQUEST }

  // ---- the requests at the firmware ----

  lemma {:induction false} FeedPlain(a: Assembly, s: string)
    requires (forall i :: 0 <= i < |s| ==> !IsTerminator(s[i])) && |a.current| + |s| < RX_SIZE
    ensures FeedAll(a, s) == a.(current := a.current + s)
    decreases |s|
  {
    if s == "" {
      assert a.current + s == a.current;
    } else {
      var n := |s| - 1;
      FeedPlain(a, s[..n]);
      assert a.current + s[..n] + [s[n]] == a.current + s;
    }
  }

  lemma FeedOne(a: Assembly, c: char)
    ensures FeedAll(a, [c]) == Feed(a, c)
  {}

  lemma FeedLine(a: Assembly, line: string)
    requires a.current == "" && 0 < |line| < RX_SIZE && forall i :: 0 <= i < |line| ==> !IsTerminator(line[i])
    ensures FeedAll(a, line + "\r\n") == a.(lines := a.lines + [line])
  {
    FeedPlain(a, line);
    assert "" + line == line;
    var b := a.(current := line);
    FeedOne(b, '\r');
    FeedOne(Feed(b, '\r'), '\n');
    ArrivalsJoin(b, "\r", "\n");
    assert "\r" + "\n" == "\r\n";
    ArrivalsJoin(a, line, "\r\n");
  }

  lemma RequestLines(a: Assembly)
    requires a.current == ""
    ensures FeedAll(a, REQUEST) == a.(lines := a.lines + ["volt pri", "volt sec"])
  {
    var p, s := "volt pri", "volt sec";
    FeedLine(a, p);
    FeedLine(a.(lines := a.lines + [p]), s);
    ArrivalsJoin(a, p + "\r\n", s + "\r\n");
    RequestIsTwoLines();
    JoinAssoc(a.lines, [p], [s]);
  }

  lemma RequestIsTwoLines()
    ensures REQUEST == ("volt pri" + "\r\n") + ("volt sec" + "\r\n")
  {}

  lemma {:induction false} RequestsLines(k: nat)
    ensures var a := FeedAll(NOTHING, Requests(k));
            && a.current == "" && |a.lines| == 2 * k
            && forall i :: 0 <= i < 2 * k ==> a.lines[i] == if i % 2 == 0 then "volt pri" else "volt sec"
  {
    if k > 0 {
      RequestsLines(k - 1);
      ArrivalsJoin(NOTHING, Requests(k - 1), REQUEST);
      RequestLines(FeedAll(NOTHING, Requests(k - 1)));
    }
  }

  // A line of a poll, with readings that fit the daemon's int.
  predicate IsPoll(a: Asked) {
    (a.line == "volt pri" || a.line == "volt sec") && a.pri < 0x8000_0000 && a.sec < 0x8000_0000
  }

  ghost predicate AllPolls(asked: seq<Asked>) { forall i :: 0 <= i < |asked| ==> IsPoll(asked[i]) }

  // ---- the firmware's answer ----

  lemma NoMatch(word: string, line: string)
    requires word != "" && line != "" && word[0] != line[0]
    ensures !Matches(word, line)
  {}

  lemma SkipsOneBlank(ch: string)
    requires ch != "" && !IsSpace(ch[0])
    ensures SkipSpace(" " + ch) == ch
  {}

  lemma AnswersVolt(line: string, ch: string, pri: u32, sec: u32, others: Handlers)
    requires line == "volt" + (" " + ch) && (ch == "pri" || ch == "sec")
    ensures Response(line, pri, sec, others) == if ch == "pri" then VoltageText("Pri", pri) else VoltageText("Sec", sec)
  {
    PlainText(line);
    assert ch[..3] == ch;
    NoMatch("sec", "pri");
    VoltIsAnswered(line, "volt", " ", ch, pri, sec, others);
    VoltageReads(pri, sec);
  }

  lemma LinesSplit()
    ensures "volt pri" == "volt" + (" " + "pri") && "volt sec" == "volt" + (" " + "sec")
  {}

  lemma AnswersBoth(pri: u32, sec: u32, others: Handlers)
    ensures Response("volt pri", pri, sec, others) == VoltageText("Pri", pri)
    ensures Response("volt sec", pri, sec, others) == VoltageText("Sec", sec)
  {
    LinesSplit();
    AnswersVolt("volt pri", "pri", pri, sec, others);
    AnswersVolt("volt sec", "sec", pri, sec, others);
  }

  function NameOf(a: Asked): string { if a.line == "volt pri" then "Pri" else "Sec" }
  function ValueOf(a: Asked): u32 { if a.line == "volt pri" then a.pri else a.sec }

  lemma ReplyIsText(a: Asked, others: Handlers)
    requires IsPoll(a)
    ensures ReplyTo(a, others) == "\n" + VoltageText(NameOf(a), ValueOf(a))
  {
    AnswersBoth(a.pri, a.sec, others);
  }

  /** The two poll lines are answered with the voltage of their channel. */
  lemma FirmwareAnswersPoll(a: Asked, others: Handlers)
    requires IsPoll(a)
    ensures ReplyTo(a, others) == "\n" + if a.line == "volt pri" then "Voltage: Pri " + Print(a.pri) + " mV\r\n"
                                         else "Voltage: Sec " + Print(a.sec) + " mV\r\n"
  {
    ReplyIsText(a, others);
    VoltageReads(a.pri, a.sec);
  }

  // ---- the replies at the daemon ----

  // What stands behind the colon of a voltage reply, and the reply's line.
  function ReplyArgument(name: string, mv: u32): string { " " + (name + (" " + (Print(mv) + " mV"))) }
  function ReplyLine(name: string, mv: u32): string { "Voltage:" + ReplyArgument(name, mv) }

  lemma ReplyIsLine(name: string, mv: u32)
    ensures VoltageText(name, mv) == ReplyLine(name, mv) + "\r" + "\n"
  {}

  lemma ReplyHasNoReturn(name: string, mv: u32)
    requires '\r' !in name
    ensures '\r' !in ReplyLine(name, mv)
  {}

  lemma ReplyParses(name: string, mv: u32)
    ensures CmdParse.Parsed(CMD_TABLE, ReplyLine(name, mv)) == [CmdParse.Dispatch(0, Some(ReplyArgument(name, mv)))]
  {
    var l, a := ReplyLine(name, mv), ReplyArgument(name, mv);
    assert l[0] == 'V';
    assert l[..7] == "Voltage" && l[7] == ':' && l[8..] == a;
    assert ':' !in "Voltage";
    IndexIs(l, ':', 7);
    BlanksAre("Voltage", 0);
    assert "Voltage"[0..] == "Voltage" && "Voltage"[..7] == "Voltage";
    FirstMatchIs(CMD_TABLE, "Voltage", 0);
  }

  lemma ReadingIs(name: string, mv: u32)
    requires |name| == 3 && forall i :: 0 <= i < 3 ==> !IsSpace(name[i])
    ensures SkipSpace(ReplyArgument(name, mv)) == name + (" " + (Print(mv) + " mV"))
    ensures Atoi(SkipSpace(SkipChars(SkipSpace(ReplyArgument(name, mv))))) == mv
  {
    var d := Print(mv) + " mV";
    SkipsOneBlank(name + (" " + d));
    SkipsWord(name, " " + d);
    WordLengthIs(" " + d, 0);
    assert (" " + d)[0..] == " " + d;
    SkipsOneBlank(d);
    AtoiReadsPrinted(mv, " mV");
  }

  lemma HandlesPri(r: Readings, mv: u32)
    ensures Handled(r, CmdParse.Dispatch(0, Some(ReplyArgument("Pri", mv)))) == r.(pri := mv)
  {
    ReadingIs("Pri", mv);
    var p := SkipSpace(ReplyArgument("Pri", mv));
    assert p[..3] == "Pri";
  }

  lemma HandlesSec(r: Readings, mv: u32)
    ensures Handled(r, CmdParse.Dispatch(0, Some(ReplyArgument("Sec", mv)))) == r.(sec := mv)
  {
    ReadingIs("Sec", mv);
    var p := SkipSpace(ReplyArgument("Sec", mv));
    assert p[..3] == "Sec" && p[0] == 'S';
    NoMatch("Pri", p);
  }

  // ---- any number of replies at the daemon ----

  function DispatchOf(a: Asked): CmdParse.Dispatch { CmdParse.Dispatch(0, Some(ReplyArgument(NameOf(a), ValueOf(a)))) }

  function Dispatched(asked: seq<Asked>): seq<CmdParse.Dispatch> {
    seq(|asked|, i requires 0 <= i < |asked| => DispatchOf(asked[i]))
  }

  // The readings after replies to these lines.
  function After(r: Readings, a: Asked): Readings {
    if a.line == "volt pri" then r.(pri := a.pri) else r.(sec := a.sec)
  }

  function Told(r: Readings, asked: seq<Asked>): Readings
    decreases |asked|
  {
    if asked == [] then r else After(Told(r, asked[..|asked| - 1]), asked[|asked| - 1])
  }

  // A text that begins with answered lines dispatching ds and goes on with rest.
  ghost predicate Adds(s: string, ds: seq<CmdParse.Dispatch>, rest: string) {
    && CmdParse.Dispatches(CMD_TABLE, s) == ds + CmdParse.Dispatches(CMD_TABLE, rest)
    && (CmdParse.AllAnswered(CMD_TABLE, s) <==> CmdParse.AllAnswered(CMD_TABLE, rest))
  }

  lemma AddsBoth(s: string, x: seq<CmdParse.Dispatch>, t: string, y: seq<CmdParse.Dispatch>, rest: string)
    requires Adds(s, x, t) && Adds(t, y, rest)
    ensures Adds(s, x + y, rest)
  {
    JoinAssoc(x, y, CmdParse.Dispatches(CMD_TABLE, rest));
  }

  lemma Regroup(line: string, rest: string)
    ensures "\n" + (line + "\r" + "\n") + rest == "\n" + (line + "\r" + ("\n" + rest))
  {}

  // A reply in front of other text is one answered line and dispatches its reading.
  lemma ReplyDispatches(a: Asked, rest: string, others: Handlers)
    requires IsPoll(a)
    ensures Adds(ReplyTo(a, others) + rest, [DispatchOf(a)], rest)
  {
    var line := ReplyLine(NameOf(a), ValueOf(a));
    ReplyIsText(a, others);
    ReplyIsLine(NameOf(a), ValueOf(a));
    Regroup(line, rest);
    LineDispatches(line, rest, DispatchOf(a)) by {
      ReplyHasNoReturn(NameOf(a), ValueOf(a));
      ReplyParses(NameOf(a), ValueOf(a));
    }
  }

  lemma LineDispatches(line: string, rest: string, d: CmdParse.Dispatch)
    requires '\r' !in line && CmdParse.Parsed(CMD_TABLE, line) == [d]
    ensures Adds("\n" + (line + "\r" + ("\n" + rest)), [d], rest)
  {
    var t := line + "\r" + ("\n" + rest);
    CmdParse.NewlineInFront(CMD_TABLE, t);
    CmdParse.NewlineInFront(CMD_TABLE, rest);
    CmdParse.NewlineAnswered(CMD_TABLE, t);
    CmdParse.NewlineAnswered(CMD_TABLE, rest);
    CmdParse.FirstLine(CMD_TABLE, line, "\n" + rest);
    CmdParse.FirstLineAnswered(CMD_TABLE, line, "\n" + rest);
  }

  lemma {:induction false} RepliesDispatch(asked: seq<Asked>, rest: string, others: Handlers)
    requires AllPolls(asked)
    ensures Adds(Replies(asked, others) + rest, Dispatched(asked), rest)
    decreases |asked|
  {
    if asked == [] {
      assert Replies(asked, others) + rest == rest;
    } else {
      var init, a := asked[..|asked| - 1], asked[|asked| - 1];
      assert asked == init + [a];
      RepliesDispatch(init, ReplyTo(a, others) + rest, others);
      OneMoreDispatches(init, a, rest, others);
    }
  }

  lemma OneMoreDispatches(init: seq<Asked>, a: Asked, rest: string, others: Handlers)
    requires IsPoll(a)
    requires Adds(Replies(init, others) + (ReplyTo(a, others) + rest), Dispatched(init), ReplyTo(a, others) + rest)
    ensures Adds(Replies(init + [a], others) + rest, Dispatched(init + [a]), rest)
  {
    var t := ReplyTo(a, others) + rest;
    RepliesSplit(init, a, rest, others);
    ReplyDispatches(a, rest, others);
    assert Dispatched(init + [a]) == Dispatched(init) + [DispatchOf(a)];
    AddsBoth(Replies(init, others) + t, Dispatched(init), t, [DispatchOf(a)], rest);
  }

  lemma RepliesSplit(init: seq<Asked>, a: Asked, rest: string, others: Handlers)
    ensures Replies(init + [a], others) + rest == Replies(init, others) + (ReplyTo(a, others) + rest)
  {
    RepliesJoin(init, [a], others);
    OneReply(a, others);
    JoinAssoc(Replies(init, others), ReplyTo(a, others), rest);
  }

  lemma ToldOneMore(r: Readings, x: seq<Asked>, a: Asked)
    ensures Told(r, x + [a]) == After(Told(r, x), a)
  {
    assert (x + [a])[..|x|] == x;
  }

  lemma HandledOneMore(r: Readings, x: seq<Asked>, a: Asked)
    requires IsPoll(a)
    ensures HandleAll(r, Dispatched(x + [a])) == After(HandleAll(r, Dispatched(x)), a)
  {
    assert Dispatched(x + [a]) == Dispatched(x) + [DispatchOf(a)];
    HandleOneMore(r, Dispatched(x), [DispatchOf(a)]);
    HandlesReply(HandleAll(r, Dispatched(x)), a);
  }

  lemma {:induction false} HandledIsTold(r: Readings, asked: seq<Asked>)
    requires AllPolls(asked)
    ensures HandleAll(r, Dispatched(asked)) == Told(r, asked)
    decreases |asked|
  {
    if asked != [] {
      var init, a := asked[..|asked| - 1], asked[|asked| - 1];
      assert asked == init + [a];
      HandledOneMore(r, init, a);
      ToldOneMore(r, init, a);
      HandledIsTold(r, init);
    }
  }

  lemma HandlesReply(r: Readings, a: Asked)
    requires IsPoll(a)
    ensures Handled(r, DispatchOf(a)) == After(r, a)
  {
    if a.line == "volt pri" { HandlesPri(r, a.pri); } else { HandlesSec(r, a.sec); }
  }

  lemma ReplyHasNoNul(a: Asked, others: Handlers)
    requires IsPoll(a)
    ensures '\0' !in ReplyTo(a, others)
  {
    ReplyIsText(a, others);
  }

  lemma RepliesHaveNoNul(asked: seq<Asked>, others: Handlers)
    requires AllPolls(asked)
    ensures '\0' !in Replies(asked, others)
  {
    forall i | 0 <= i < |asked| ensures '\0' !in Texts(asked, others)[i] { ReplyHasNoNul(asked[i], others); }
    JoinedLacks(Texts(asked, others), '\0');
  }

  lemma {:induction false} PlainReadsArrive(chunks: seq<string>)
    requires '\0' !in Joined(chunks)
    ensures Arrived(chunks) == Joined(chunks)
    decreases |chunks|
  {
    if chunks != [] {
      var init, c := chunks[..|chunks| - 1], chunks[|chunks| - 1];
      PlainReadsArrive(init);
      PlainText(c);
      ArrivedOneMore(init, c);
      assert init + [c] == chunks;
    }
  }

  /** At any moment: whatever reads brought the replies so far and the beginning of another,
      the daemon has used up every complete line and its readings are those of the replies. */
  lemma ReadingsFollow(asked: seq<Asked>, part: string, chunks: seq<string>, others: Handlers, r: Readings)
    requires AllPolls(asked) && '\r' !in part && '\0' !in part
    requires Joined(chunks) == Replies(asked, others) + part
    ensures '\r' !in ServedAll(chunks).buf
    ensures HandleAll(r, ServedAll(chunks).dispatched) == Told(r, asked)
  {
    RepliesHaveNoNul(asked, others);
    PlainReadsArrive(chunks);
    RepliesDispatch(asked, part, others);
    CmdParse.NoLineNoDispatch(CMD_TABLE, part);
    AnsweredStreamIsKeptUp(chunks);
    assert Dispatched(asked) + [] == Dispatched(asked);
    HandledIsTold(r, asked);
  }

  /** Behind a version line, though, replies that came with it wait for the next read. */
  lemma RepliesWaitBehindTheVersion(v: string, asked: seq<Asked>, others: Handlers)
    requires AllPolls(asked) && asked != [] && '\r' !in v
    ensures var f := CmdParse.Framer("Ver" + v + "\r" + Replies(asked, others), []);
            && Drained(f).dispatched == [] && '\r' in Drained(f).buf
            && CmdParse.Dispatches(CMD_TABLE, f.buf) == Dispatched(asked)
  {
    var t := Replies(asked, others);
    var f := CmdParse.Framer("Ver" + v + "\r" + t, []);
    RepliesDispatch(asked, "", others);
    CmdParse.NoLineNoDispatch(CMD_TABLE, "");
    assert t + "" == t && Dispatched(asked) + [] == Dispatched(asked);
    assert '\r' in t by {
      if '\r' !in t {
        CmdParse.NoLineNoDispatch(CMD_TABLE, t);
        assert false;
      }
    }
    VersionIsUnanswered(v);
    CmdParse.FirstLine(CMD_TABLE, "Ver" + v, t);
    VersionStopsTheDrain(f, v, t);
  }

  // ---- the cycle ----

  // Readings that fit the daemon's int.
  ghost predicate InRange(turns: seq<Turn>) {
    forall i :: 0 <= i < |turns| ==> turns[i].pri < 0x8000_0000 && turns[i].sec < 0x8000_0000
  }

  lemma {:induction false} AsksInRange(a: Assembly, turns: seq<Turn>)
    requires InRange(turns)
    ensures forall i :: 0 <= i < |Asks(a, turns)| ==>
              Asks(a, turns)[i].pri < 0x8000_0000 && Asks(a, turns)[i].sec < 0x8000_0000
    decreases |turns|
  {
    if turns != [] { AsksInRange(a, turns[..|turns| - 1]); }
  }

  ghost predicate Alternates(asked: seq<Asked>) {
    forall i :: 0 <= i < |asked| ==> asked[i].line == if i % 2 == 0 then "volt pri" else "volt sec"
  }

  // What k polls ask, however they arrive.
  lemma PollsAsk(turns: seq<Turn>, k: nat)
    requires InRange(turns) && Joined(Chunks(turns)) == Requests(k)
    ensures var asked := Asks(NOTHING, turns);
            AllPolls(asked) && |asked| == 2 * k && Alternates(asked)
  {
    AsksAreTheLines(NOTHING, turns);
    RequestsLines(k);
    AsksInRange(NOTHING, turns);
  }

  /** The poll cycle: however k requests arrive at the firmware, whatever its readings are
      in each turn, and however the replies arrive at the daemon, 2 k replies are dispatched
      and the daemon ends with the primary and the secondary voltage the firmware had in the
      turns that completed the last poll's two lines - for every value atoi can represent. */
  lemma PollCycleRoundTrip(turns: seq<Turn>, k: nat, others: Handlers, chunks: seq<string>, r: Readings)
    requires InRange(turns) && Joined(Chunks(turns)) == Requests(k)
    requires Joined(chunks) == Replies(Asks(NOTHING, turns), others)
    ensures |Asks(NOTHING, turns)| == 2 * k && '\r' !in ServedAll(chunks).buf
    ensures HandleAll(r, ServedAll(chunks).dispatched)
         == if k == 0 then r
            else r.(pri := Asks(NOTHING, turns)[2 * k - 2].pri, sec := Asks(NOTHING, turns)[2 * k - 1].sec)
  {
    var asked := Asks(NOTHING, turns);
    PollsAsk(turns, k);
    assert Replies(asked, others) + "" == Replies(asked, others);
    ReadingsFollow(asked, "", chunks, others, r);
    LastPollCounts(r, asked, k);
  }

  lemma {:induction false} LastPollCounts(r: Readings, asked: seq<Asked>, k: nat)
    requires |asked| == 2 * k && Alternates(asked)
    ensures Told(r, asked) == if k == 0 then r else r.(pri := asked[2 * k - 2].pri, sec := asked[2 * k - 1].sec)
  {
    if k > 0 {
      var before, a, b := asked[..2 * k - 2], asked[2 * k - 2], asked[2 * k - 1];
      assert asked == before + [a] + [b] && a.line == "volt pri" && b.line == "volt sec";
      assert Alternates(before);
      ToldOneMore(r, before, a);
      ToldOneMore(r, before + [a], b);
      LastPollCounts(r, before, k - 1);
      SecIsNotPri(b);
    }
  }

  lemma SecIsNotPri(b: Asked)
    requires b.line == "volt sec"
    ensures b.line != "volt pri"
  {
    assert b.line[5] == 's';
  }

  /** ... and through the real rings: when every received byte has been read and every
      offered one sent, and no byte met a ring that drops or forgets - the exact conditions
      of UartBuffer - the same holds of what went over the wire. */
  lemma PollCycleOverTheRings(events: seq<UartBuffer.Event>, turns: seq<Turn>, k: nat, others: Handlers,
                              chunks: seq<string>, r: Readings)
    requires InRange(turns)
    requires UartBuffer.NoRxLoss(events) && UartBuffer.NoTxLoss(events)
    requires var l := UartBuffer.Run(UartBuffer.QUIET, events);
             && l.rings.rx == [] && l.rings.tx == [] && l.received == Requests(k)
             && Joined(Chunks(turns)) == l.read
             && l.offered == Replies(Asks(NOTHING, turns), others)
             && Joined(chunks) == l.sent
    ensures |Asks(NOTHING, turns)| == 2 * k && '\r' !in ServedAll(chunks).buf
    ensures HandleAll(r, ServedAll(chunks).dispatched)
         == if k == 0 then r
            else r.(pri := Asks(NOTHING, turns)[2 * k - 2].pri, sec := Asks(NOTHING, turns)[2 * k - 1].sec)
  {
    var l := UartBuffer.Run(UartBuffer.QUIET, events);
    UartBuffer.RxLosslessExactly(events);
    UartBuffer.TxLosslessExactly(events);
    assert l.read + [] == l.read && l.sent + [] == l.sent;
    PollCycleRoundTrip(turns, k, others, chunks, r);
  }
}
