/** The firmware's end of the link: command lookup, the voltage reply, and the loop that
    assembles lines and answers them. */
module Firmware {
  import opened Words
  import opened Text
  import opened Decimal
  import opened LineAssembler

  // A table entry chosen for a line, and the rest of the line from the first blank on.
  datatype Lookup = Lookup(index: nat, arg: string)

  function LookedUp(line: string, table: seq<string>): Option<Lookup> {
    var i := FirstMatch(table, line);
    if i < |table| then Some(Lookup(i, SkipChars(line))) else None
  }

  method CpLookup(line: string, table: seq<string>) returns (r: Option<Lookup>)
    ensures r == LookedUp(line, table)
  {
    for i := 0 to |table|
      invariant forall k :: 0 <= k < i ==> !Matches(table[k], line)
    {
      if Matches(table[i], line) {
        var arg := StepOverChars(line);
        assert FirstMatch(table, line) == i;
        return Some(Lookup(i, arg));
      }
    }
    return None;
  }

  const SYSTEM_COMMANDS := ["restart", "current", "volt", "rawv", "rawc", "calib", "offset", "ver"]
  const VOLT := 2

  // "Voltage: %s %lu mV\r\n"
  function VoltageText(name: string, mv: u32): string {
    "Voltage: " + (name + (" " + (Print(mv) + " mV\r\n")))
  }

  // The voltage handler's text, or none when the channel is not recognised.
  function VoltageReply(arg: string, pri: u32, sec: u32): Option<string> {
    var a := SkipSpace(arg);
    if Matches("sec", a) then Some(VoltageText("Sec", sec))
    else if Matches("pri", a) then Some(VoltageText("Pri", pri))
    else None
  }

  method CmdVoltage(arg: string, pri: u32, sec: u32) returns (r: Option<string>)
    ensures r == VoltageReply(arg, pri, sec)
  {
    var a := StepOverSpace(arg);
    var ch: int;
    if Matches("sec", a) {
      ch := 2;
    } else if Matches("pri", a) {
      ch := 1;
    } else {
      return None;
    }
    r := Some(VoltageText(if ch == 2 then "Sec" else "Pri", if ch == 2 then sec else pri));
  }

  // What the other handlers leave in the response buffer.
  type Handlers = (nat, string) -> string

  // The text in the response buffer after a line was looked up: empty when nothing matched
  // or the handler refused.
  function Response(line: string, pri: u32, sec: u32, others: Handlers): string {
    match LookedUp(CText(line), SYSTEM_COMMANDS)
    case None => ""
    case Some(l) =>
      if l.index == VOLT then
        var v := VoltageReply(l.arg, pri, sec);
        if v == None then "" else v.value
      else others(l.index, l.arg)
  }

  // ---- which lines get which answer ----

  // The table's words are all different at their first, second or fourth character.
  lemma WordsDiffer(i: nat, k: nat)
    requires i < k < |SYSTEM_COMMANDS|
    ensures var a, b := SYSTEM_COMMANDS[i], SYSTEM_COMMANDS[k];
            |a| >= 3 && |b| >= 3 && (a[0] != b[0] || a[1] != b[1] || (|a| == 4 && |b| == 4 && a[3] != b[3]))
  {}

  // A line that begins with one of the words begins with no other.
  lemma WordIsFound(i: nat, line: string)
    requires i < |SYSTEM_COMMANDS| && Matches(SYSTEM_COMMANDS[i], line)
    ensures FirstMatch(SYSTEM_COMMANDS, line) == i
  {
    var b := SYSTEM_COMMANDS[i];
    forall k | 0 <= k < i ensures !Matches(SYSTEM_COMMANDS[k], line) {
      var a := SYSTEM_COMMANDS[k];
      WordsDiffer(k, i);
      WordsAgree(b, a, line, 0);
      WordsAgree(b, a, line, 1);
      if |a| == 4 && |b| == 4 { WordsAgree(b, a, line, 3); }
    }
    FirstMatchIs(SYSTEM_COMMANDS, line, i);
  }

  // A line's text up to its NUL: a word without blanks, and what stands from the first blank on.
  ghost predicate WordAndRest(line: string, x: string, y: string) {
    && CText(line) == x + y && (forall k :: 0 <= k < |x| ==> !IsSpace(x[k])) && (y == "" || IsSpace(y[0]))
  }

  lemma RestIsSkipped(line: string, x: string, y: string)
    requires WordAndRest(line, x, y)
    ensures SkipChars(CText(line)) == y
  {
    SkipsWord(x, y);
    WordLengthIs(y, 0);
    assert y[0..] == y;
  }

  lemma WordMatches(word: string, x: string, y: string)
    requires word <= x
    ensures Matches(word, x + y)
  {}

  /** A line whose first word begins with one of the table's, volt aside, is answered by
      that entry's handler with the line's text from the first blank on. */
  lemma CommandIsAnswered(line: string, x: string, y: string, i: nat, pri: u32, sec: u32, others: Handlers)
    requires WordAndRest(line, x, y) && i < 8 && i != 2
    requires var word := ["restart", "current", "volt", "rawv", "rawc", "calib", "offset", "ver"][i];
             word <= x
    ensures Response(line, pri, sec, others) == others(i, y)
  {
    WordMatches(SYSTEM_COMMANDS[i], x, y);
    WordIsFound(i, CText(line));
    RestIsSkipped(line, x, y);
  }

  /** A line that begins with none of the words gets the empty response. */
  lemma UnknownIsNotAnswered(line: string, pri: u32, sec: u32, others: Handlers)
    requires forall i :: 0 <= i < 8 ==>
               !(["restart", "current", "volt", "rawv", "rawc", "calib", "offset", "ver"][i] <= CText(line))
    ensures Response(line, pri, sec, others) == ""
  {
    NothingMatches(SYSTEM_COMMANDS, CText(line));
  }

  /** A volt line is answered by the channel that begins its argument, and by the empty
      response when that is neither of the two. */
  lemma VoltIsAnswered(line: string, x: string, blanks: string, ch: string, pri: u32, sec: u32, others: Handlers)
    requires WordAndRest(line, x, blanks + ch) && "volt" <= x
    requires (forall k :: 0 <= k < |blanks| ==> IsSpace(blanks[k])) && (ch == "" || !IsSpace(ch[0]))
    ensures Response(line, pri, sec, others) ==
            if "sec" <= ch then "Voltage: Sec " + Print(sec) + " mV\r\n"
            else if "pri" <= ch then "Voltage: Pri " + Print(pri) + " mV\r\n"
            else ""
  {
    WordMatches("volt", x, blanks + ch);
    WordIsFound(2, CText(line));
    RestIsSkipped(line, x, blanks + ch);
    SkipsBlanks(blanks, ch);
    BlanksAre(ch, 0);
    assert ch[0..] == ch;
    VoltageReads(pri, sec);
  }

  lemma VoltageReads(pri: u32, sec: u32)
    ensures VoltageText("Pri", pri) == "Voltage: Pri " + Print(pri) + " mV\r\n"
    ensures VoltageText("Sec", sec) == "Voltage: Sec " + Print(sec) + " mV\r\n"
  {}

  // A line handed on, with the readings of the turn of the main loop that answers it.
  datatype Asked = Asked(line: string, pri: u32, sec: u32)

  function With(lines: seq<string>, pri: u32, sec: u32): (r: seq<Asked>)
    ensures |r| == |lines|
  {
    seq(|lines|, i requires 0 <= i < |lines| => Asked(lines[i], pri, sec))
  }

  // What goes out for a line, and for a list of them: a line feed and the response for each.
  function ReplyTo(a: Asked, others: Handlers): string { "\n" + Response(a.line, a.pri, a.sec, others) }

  function Texts(asked: seq<Asked>, others: Handlers): (r: seq<string>)
    ensures |r| == |asked|
  {
    seq(|asked|, i requires 0 <= i < |asked| => ReplyTo(asked[i], others))
  }

  function Replies(asked: seq<Asked>, others: Handlers): string { Joined(Texts(asked, others)) }

  lemma OneReply(a: Asked, others: Handlers)
    ensures Replies([a], others) == ReplyTo(a, others)
  {
    assert Texts([a], others) == [ReplyTo(a, others)];
    JoinedOne(ReplyTo(a, others));
  }

  lemma RepliesJoin(x: seq<Asked>, y: seq<Asked>, others: Handlers)
    ensures Replies(x + y, others) == Replies(x, others) + Replies(y, others)
  {
    assert Texts(x + y, others) == Texts(x, others) + Texts(y, others);
    JoinedJoin(Texts(x, others), Texts(y, others));
  }

  // One turn of the main loop: what has arrived since the last, and the readings.
  datatype Turn = Turn(chunk: string, pri: u32, sec: u32)

  function Chunks(turns: seq<Turn>): seq<string> {
    seq(|turns|, i requires 0 <= i < |turns| => turns[i].chunk)
  }

  // The lines a turn completes.
  function LinesOf(a: Assembly, chunk: string): seq<string> {
    LinesGrow(a, chunk);
    FeedAll(a, chunk).lines[|a.lines|..]
  }

  // The lines completed over a number of turns.
  function Asks(a: Assembly, turns: seq<Turn>): seq<Asked>
    decreases |turns|
  {
    if turns == [] then []
    else
      var init, t := turns[..|turns| - 1], turns[|turns| - 1];
      Asks(a, init) + With(LinesOf(FeedAll(a, Joined(Chunks(init))), t.chunk), t.pri, t.sec)
  }

  lemma ChunksOneMore(turns: seq<Turn>, t: Turn)
    ensures Joined(Chunks(turns + [t])) == Joined(Chunks(turns)) + t.chunk
  {
    assert Chunks(turns + [t]) == Chunks(turns) + [t.chunk];
  }

  /** Over any number of turns the lines answered are those of the joined input, however it
      was cut, each with the readings of the turn that completed it. */
  lemma {:induction false} AsksAreTheLines(a: Assembly, turns: seq<Turn>)
    ensures var joined := FeedAll(a, Joined(Chunks(turns)));
            |Asks(a, turns)| + |a.lines| == |joined.lines|
            && forall i :: 0 <= i < |Asks(a, turns)| ==> Asks(a, turns)[i].line == joined.lines[|a.lines| + i]
    decreases |turns|
  {
    if turns != [] {
      var init, t := turns[..|turns| - 1], turns[|turns| - 1];
      var mid := FeedAll(a, Joined(Chunks(init)));
      AsksAreTheLines(a, init);
      ChunksOneMore(init, t);
      assert init + [t] == turns;
      ArrivalsJoin(a, Joined(Chunks(init)), t.chunk);
      LinesGrow(mid, t.chunk);
      assert FeedAll(a, Joined(Chunks(turns))) == FeedAll(mid, t.chunk);
      ReadingsAttached(Asks(a, init), LinesOf(mid, t.chunk), t);
    }
  }

  // How many lines the first j turns complete.
  function Completed(a: Assembly, turns: seq<Turn>, j: nat): int
    requires j <= |turns|
  {
    |FeedAll(a, Joined(Chunks(turns[..j]))).lines| - |a.lines|
  }

  lemma LastTurnAsks(a: Assembly, turns: seq<Turn>)
    requires turns != []
    ensures var n := |turns| - 1; var x, y := Asks(a, turns[..n]), Asks(a, turns);
            && x <= y && forall i :: |x| <= i < |y| ==> y[i].pri == turns[n].pri && y[i].sec == turns[n].sec
  {}

  lemma {:induction false} ReadingsInOrder(a: Assembly, turns: seq<Turn>, j: nat, i: nat)
    requires j < |turns| && |Asks(a, turns[..j])| <= i < |Asks(a, turns[..j + 1])|
    ensures i < |Asks(a, turns)|
    ensures Asks(a, turns)[i].pri == turns[j].pri && Asks(a, turns)[i].sec == turns[j].sec
    decreases |turns|
  {
    LastTurnAsks(a, turns);
    var n := |turns| - 1;
    if j == n {
      assert turns[..j + 1] == turns;
    } else {
      assert turns[..n][..j] == turns[..j] && turns[..n][..j + 1] == turns[..j + 1];
      ReadingsInOrder(a, turns[..n], j, i);
    }
  }

  /** A line is answered with the readings of the turn that completed it. */
  lemma ReadingsAreTheTurns(a: Assembly, turns: seq<Turn>, j: nat, i: nat)
    requires j < |turns| && Completed(a, turns, j) <= i < Completed(a, turns, j + 1)
    ensures i < |Asks(a, turns)|
    ensures Asks(a, turns)[i].pri == turns[j].pri && Asks(a, turns)[i].sec == turns[j].sec
  {
    AsksAreTheLines(a, turns[..j]);
    AsksAreTheLines(a, turns[..j + 1]);
    ReadingsInOrder(a, turns, j, i);
  }

  lemma ReadingsAttached(x: seq<Asked>, lines: seq<string>, t: Turn)
    ensures forall i :: 0 <= i < |lines| ==> (x + With(lines, t.pri, t.sec))[|x| + i].line == lines[i]
  {}

  /** The receive buffer. The cell behind its 256 characters is the byte the linker put
      there, which the source writes when a line fills the buffer. handed and spilled record
      the lines handed on and whether that has happened. */
  class Receiver {
    const msgBuf: array<char>
    var rxSize: nat
    ghost var handed: seq<string>
    ghost var spilled: bool

    ghost predicate Valid()
      reads this, msgBuf
    {
      msgBuf.Length == RX_SIZE + 1 && rxSize <= RX_SIZE && (rxSize > 0 ==> msgBuf[rxSize] == '\0')
    }

    ghost function Now(): Assembly
      requires Valid()
      reads this, msgBuf
    {
      Assembly(msgBuf[..rxSize], handed, spilled)
    }

    constructor ()
      ensures Valid() && Now() == NOTHING && fresh(msgBuf)
    {
      msgBuf := new char[RX_SIZE + 1](_ => '\0');
      rxSize, handed, spilled := 0, [], false;
    }

    // A character that ends no line.
    method Store(c: char)
      requires Valid() && !IsTerminator(c)
      modifies this`rxSize, this`spilled, msgBuf
      ensures Valid() && Now() == Feed(old(Now()), c)
    {
      if rxSize < RX_SIZE {
        msgBuf[rxSize] := c;
        rxSize := rxSize + 1;
        msgBuf[rxSize] := '\0';
        spilled := spilled || rxSize == RX_SIZE;
      }
    }

    // A carriage return or line feed: an unfinished line is answered.
    method EndLine(ghost c: char, pri: u32, sec: u32, others: Handlers) returns (output: string)
      requires Valid() && IsTerminator(c)
      modifies this`rxSize, this`handed
      ensures Valid() && Now() == Feed(old(Now()), c)
      ensures old(handed) <= handed && output == Replies(With(handed[|old(handed)|..], pri, sec), others)
    {
      output := "";
      if rxSize > 0 {
        var line := msgBuf[..rxSize];
        var text := Answer(line, pri, sec, others);
        output := "\n" + text;
        handed := handed + [line];
        rxSize := 0;
        assert handed[|old(handed)|..] == [line];
        assert With([line], pri, sec) == [Asked(line, pri, sec)];
        OneReply(Asked(line, pri, sec), others);
      }
    }

    /** Takes the received characters one by one and answers every line they complete.
        Because the state carries over, any number of calls do what one call on the joined
        input would. */
    method RunConfig(input: string, pri: u32, sec: u32, others: Handlers) returns (output: string)
      requires Valid()
      modifies this`rxSize, this`handed, this`spilled, msgBuf
      ensures Valid() && Now() == FeedAll(old(Now()), input)
      ensures output == Replies(With(LinesOf(old(Now()), input), pri, sec), others)
    {
      ghost var start := Now();
      output := "";
      for i := 0 to |input|
        invariant Valid() && Now() == FeedAll(start, input[..i]) && start.lines <= handed
        invariant output == Replies(With(handed[|start.lines|..], pri, sec), others)
      {
        var c := input[i];
        assert input[..i + 1][..i] == input[..i];
        if c == '\r' || c == '\n' {
          ghost var before := handed;
          var text := EndLine(c, pri, sec, others);
          output := output + text;
          RepliesGrow(start.lines, before, handed, pri, sec, others);
        } else {
          Store(c);
        }
      }
      assert input[..|input|] == input;
    }

    // CP_Lookup: clears the response buffer and runs the handler of the matching entry.
    method Answer(line: string, pri: u32, sec: u32, others: Handlers) returns (text: string)
      ensures text == Response(line, pri, sec, others)
    {
      text := "";
      var l := CpLookup(CText(line), SYSTEM_COMMANDS);
      if l != None {
        if l.value.index == VOLT {
          var v := CmdVoltage(l.value.arg, pri, sec);
          if v != None {
            text := v.value;
          }
        } else {
          text := others(l.value.index, l.value.arg);
        }
      }
    }

    // The lines of these turns have been answered with this output.
    ghost predicate ServedTo(start: Assembly, turns: seq<Turn>, others: Handlers, output: string)
      reads this, msgBuf
    {
      Valid() && Now() == FeedAll(start, Joined(Chunks(turns))) && output == Replies(Asks(start, turns), others)
    }

    // One more turn.
    method ServeTurn(ghost start: Assembly, ghost init: seq<Turn>, t: Turn, others: Handlers, output: string)
      returns (more: string)
      requires ServedTo(start, init, others, output)
      modifies this`rxSize, this`handed, this`spilled, msgBuf
      ensures ServedTo(start, init + [t], others, more)
    {
      TurnAdds(start, init, t, others);
      var text := RunConfig(t.chunk, t.pri, t.sec, others);
      more := output + text;
    }

    /** The main loop's calls of RunConfig, one a turn, each with the readings it finds. */
    method ServeTurns(turns: seq<Turn>, others: Handlers) returns (output: string)
      requires Valid()
      modifies this`rxSize, this`handed, this`spilled, msgBuf
      ensures Valid() && Now() == FeedAll(old(Now()), Joined(Chunks(turns)))
      ensures output == Replies(Asks(old(Now()), turns), others)
    {
      ghost var start := Now();
      output := "";
      for i := 0 to |turns|
        invariant ServedTo(start, turns[..i], others, output)
      {
        PrefixGrows(turns, i);
        output := ServeTurn(start, turns[..i], turns[i], others, output);
      }
      assert turns[..|turns|] == turns;
    }
  }

  // What one more turn adds.
  lemma TurnAdds(a: Assembly, init: seq<Turn>, t: Turn, others: Handlers)
    ensures var mid := FeedAll(a, Joined(Chunks(init)));
            && FeedAll(a, Joined(Chunks(init + [t]))) == FeedAll(mid, t.chunk)
            && Replies(Asks(a, init + [t]), others)
               == Replies(Asks(a, init), others) + Replies(With(LinesOf(mid, t.chunk), t.pri, t.sec), others)
  {
    var mid := FeedAll(a, Joined(Chunks(init)));
    ChunksOneMore(init, t);
    ArrivalsJoin(a, Joined(Chunks(init)), t.chunk);
    assert (init + [t])[..|init|] == init;
    RepliesJoin(Asks(a, init), With(LinesOf(mid, t.chunk), t.pri, t.sec), others);
  }

  // Replies to the lines between two moments and on to a third.
  lemma RepliesGrow(a: seq<string>, b: seq<string>, c: seq<string>, pri: u32, sec: u32, others: Handlers)
    requires a <= b <= c
    ensures Replies(With(c[|a|..], pri, sec), others)
         == Replies(With(b[|a|..], pri, sec), others) + Replies(With(c[|b|..], pri, sec), others)
  {
    assert With(c[|a|..], pri, sec) == With(b[|a|..], pri, sec) + With(c[|b|..], pri, sec);
    RepliesJoin(With(b[|a|..], pri, sec), With(c[|b|..], pri, sec), others);
  }
}
