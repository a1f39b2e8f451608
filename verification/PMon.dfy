/** The daemon: replies framed, dispatched to their handlers, and the readings kept. The
    readings are whole millivolts and milliamperes. */
module PMon {
  import opened Text
  import opened Decimal
  import opened CmdParse

  const CMD_TABLE := ["Voltage", "current"]

  datatype Readings = Readings(pri: int, sec: int, current: int)

  // "Pri 1234 mV" or "Sec 1234 mV"; anything else is refused.
  function VoltageReceived(r: Readings, buf: string): Readings {
    var p := SkipSpace(buf);
    var mv := Atoi(SkipSpace(SkipChars(p)));
    if Matches("Pri", p) then r.(pri := mv)
    else if Matches("Sec", p) then r.(sec := mv)
    else r
  }

  // A handler's effect and its return value, never negative.
  function Handled(r: Readings, d: Dispatch): Readings {
    if d.arg == None then r
    else if d.cmd == 0 then VoltageReceived(r, d.arg.value)
    else r.(current := Atoi(SkipSpace(d.arg.value)))
  }

  function ReturnOf(d: Dispatch): nat {
    if d.cmd == 0 && d.arg != None && !Matches("Pri", SkipSpace(d.arg.value)) && !Matches("Sec", SkipSpace(d.arg.value))
    then 0 else 1
  }

  function HandleAll(r: Readings, ds: seq<Dispatch>): Readings {
    if ds == [] then r else Handled(HandleAll(r, ds[..|ds| - 1]), ds[|ds| - 1])
  }

  lemma HandleOneMore(r: Readings, ds: seq<Dispatch>, more: seq<Dispatch>)
    requires |more| <= 1
    ensures HandleAll(r, ds + more) == if more == [] then HandleAll(r, ds) else Handled(HandleAll(r, ds), more[0])
  {
    if more == [] {
      assert ds + more == ds;
    } else {
      assert (ds + more)[..|ds|] == ds;
    }
  }

  // The drain loop: call until a line goes unanswered or none is left.
  function Drained(f: Framer): Framer
    decreases |f.buf|
  {
    if '\r' !in f.buf then f
    else if Parsed(CMD_TABLE, f.buf[..IndexOf(f.buf, '\r')]) == [] then Step(CMD_TABLE, f, Call)
    else Drained(Step(CMD_TABLE, f, Call))
  }

  // ---- what a drain achieves ----

  // The buffer a call leaves behind a line, left-over line feed or not.
  lemma CallLeaves(f: Framer, line: string, rest: string)
    requires '\r' !in line && f.buf == line + "\r" + rest
    ensures '\r' in f.buf && line == f.buf[..IndexOf(f.buf, '\r')]
    ensures var b := Step(CMD_TABLE, f, Call).buf;
            && |b| < |f.buf| && ('\r' in b <==> '\r' in rest)
            && (AllButLastAnswered(CMD_TABLE, b) <==> AllButLastAnswered(CMD_TABLE, rest))
            && (AnsweredFirst(CMD_TABLE, b) <==> AnsweredFirst(CMD_TABLE, rest))
            && Dispatches(CMD_TABLE, b) == Dispatches(CMD_TABLE, rest)
  {
    CallTakesHead(CMD_TABLE, f, line, rest);
    FirstLine(CMD_TABLE, line, rest);
    assert (line + "\r" + rest)[..|line|] == line;
    NewlineAnswered(CMD_TABLE, rest);
    NewlineInFront(CMD_TABLE, rest);
  }

  /** A drain uses up every complete line exactly when all of them but the last are
      answered: it stops behind the first that is not. */
  lemma {:induction false} DrainsExactly(f: Framer)
    ensures '\r' !in Drained(f).buf <==> AllButLastAnswered(CMD_TABLE, f.buf)
    decreases |f.buf|
  {
    if '\r' in f.buf {
      var line, rest := SplitFirstLine(f.buf);
      CallLeaves(f, line, rest);
      FirstLineAnswered(CMD_TABLE, line, rest);
      if Parsed(CMD_TABLE, line) != [] { DrainsExactly(Step(CMD_TABLE, f, Call)); }
    }
  }

  /** It dispatches everything there is to dispatch exactly when no answered line stands
      behind an unanswered one. */
  lemma {:induction false} DispatchesAllExactly(f: Framer)
    ensures Drained(f).dispatched == f.dispatched + Dispatches(CMD_TABLE, f.buf) <==> AnsweredFirst(CMD_TABLE, f.buf)
    decreases |f.buf|
  {
    if '\r' in f.buf {
      var line, rest := SplitFirstLine(f.buf);
      var g, p, q := Step(CMD_TABLE, f, Call), Parsed(CMD_TABLE, line), Dispatches(CMD_TABLE, rest);
      CallLeaves(f, line, rest);
      FirstLineAnswered(CMD_TABLE, line, rest);
      FirstLine(CMD_TABLE, line, rest);
      JoinAssoc(f.dispatched, p, q);
      if p != [] { DispatchesAllExactly(g); } else { AppendsNothing(f.dispatched, p, q); }
    }
  }

  lemma AppendsNothing<T>(a: seq<T>, p: seq<T>, q: seq<T>)
    requires p == []
    ensures a + p == a && (a == a + (p + q) <==> q == [])
  {
    assert |a + (p + q)| == |a| + |q|;
  }

  lemma VersionIsUnanswered(v: string)
    ensures Parsed(CMD_TABLE, "Ver" + v) == []
  {
    UnansweredBeginning("Ver", v);
  }

  /** The firmware begins its current replies with a capital, which the table does not know. */
  lemma CurrentReplyIsUnanswered(v: string)
    ensures Parsed(CMD_TABLE, "Current" + v) == []
  {
    UnansweredBeginning("Current", v);
  }

  lemma UnansweredBeginning(word: string, v: string)
    requires |word| >= 3 && ':' !in word && (word[..2] == "Ve" || word[..2] == "Cu")
    ensures Parsed(CMD_TABLE, word + v) == []
  {
    var n := IndexOf(v, ':');
    var cmd := word + v[..n];
    assert word + v == "" + cmd + v[n..];
    assert word[0] == word[..2][0] && word[1] == word[..2][1];
    assert cmd[0] == word[0] && cmd[1] == word[1];
    assert forall k :: 0 <= k < n ==> v[..n][k] == v[k];
    assert CMD_TABLE[0][1] == 'o' && CMD_TABLE[1][0] == 'c';
    LineDispatches(CMD_TABLE, "", cmd, v[n..], 2);
  }

  /** Which reply the daemon answers, and with what: the ones whose command begins with
      Voltage or with current, in just that spelling. */
  lemma ReplyIsDispatched(blanks: string, cmd: string, tail: string)
    requires (forall k :: 0 <= k < |blanks| ==> IsSpace(blanks[k])) && (cmd == "" || !IsSpace(cmd[0])) && ':' !in cmd
    requires tail == "" || tail[0] == ':'
    ensures var arg := if |tail| > 1 then Some(tail[1..]) else None;
            Parsed(CMD_TABLE, blanks + cmd + tail) ==
              if "Voltage" <= cmd then [Dispatch(0, arg)] else if "current" <= cmd then [Dispatch(1, arg)] else []
  {
    LineDispatches(CMD_TABLE, blanks, cmd, tail, if "Voltage" <= cmd then 0 else if "current" <= cmd then 1 else 2);
  }

  // ---- what a handler does ----

  lemma AtoiSkips(s: string)
    ensures Atoi(SkipSpace(s)) == Atoi(s)
  {
    var n := Blanks(s);
    assert s == s[..n] + s[n..];
    AtoiSkipsBlanks(s[..n], s[n..]);
  }

  /** A voltage argument sets the channel its first word begins with, Pri or Sec, to the
      number behind that word; any other changes nothing and is refused with 0. */
  lemma VoltageIsHandled(r: Readings, blanks: string, word: string, rest: string)
    requires forall k :: 0 <= k < |blanks| ==> IsSpace(blanks[k])
    requires word != "" && (forall k :: 0 <= k < |word| ==> !IsSpace(word[k])) && (rest == "" || IsSpace(rest[0]))
    ensures var d := Dispatch(0, Some(blanks + (word + rest)));
            && Handled(r, d) == (if "Pri" <= word then r.(pri := Atoi(rest))
                                 else if "Sec" <= word then r.(sec := Atoi(rest)) else r)
            && ReturnOf(d) == if "Pri" <= word || "Sec" <= word then 1 else 0
  {
    SkipsBlanks(blanks, word + rest);
    BlanksAre(word + rest, 0);
    assert (word + rest)[0..] == word + rest;
    SkipsWord(word, rest);
    WordLengthIs(rest, 0);
    assert rest[0..] == rest;
    AtoiSkips(rest);
    BeginsWith("Pri", word, rest);
    BeginsWith("Sec", word, rest);
  }

  lemma BeginsWith(name: string, word: string, rest: string)
    requires (forall k :: 0 <= k < |name| ==> !IsSpace(name[k])) && (rest == "" || IsSpace(rest[0]))
    ensures Matches(name, word + rest) <==> name <= word
  {
    var s := word + rest;
    if |name| <= |word| {
      assert s[..|name|] == word[..|name|];
    } else if |name| <= |s| {
      assert s[..|name|][|word|] == rest[0];
    }
  }

  /** A current argument sets the current; a reply without an argument changes nothing and
      is not refused. */
  lemma OthersAreHandled(r: Readings, arg: string, cmd: nat)
    ensures Handled(r, Dispatch(1, Some(arg))) == r.(current := Atoi(arg)) && ReturnOf(Dispatch(1, Some(arg))) == 1
    ensures Handled(r, Dispatch(cmd, None)) == r && ReturnOf(Dispatch(cmd, None)) == 1
  {
    AtoiSkips(arg);
  }

  /** The firmware's version line, which the daemon asks for at start-up, is answered by
      nothing in the table, so whatever lines arrived behind it stay in the buffer. */
  lemma VersionStopsTheDrain(f: Framer, v: string, rest: string)
    requires '\r' !in v && '\r' in rest && f.buf == "Ver" + v + "\r" + rest
    ensures '\r' in Drained(f).buf && Drained(f).dispatched == f.dispatched
  {
    VersionIsUnanswered(v);
    CallLeaves(f, "Ver" + v, rest);
  }

  // ---- alternating reads and drains ----

  // One wake-up of the daemon: what was read, up to its first NUL, is appended and the
  // buffer drained; a read of nothing does nothing.
  function Served(f: Framer, chunk: string): Framer {
    if chunk == "" then f else Drained(Step(CMD_TABLE, f, Arrive(CText(chunk))))
  }

  function ServedAll(chunks: seq<string>): Framer
    decreases |chunks|
  {
    if chunks == [] then Framer("", []) else Served(ServedAll(chunks[..|chunks| - 1]), chunks[|chunks| - 1])
  }

  // What those reads brought.
  function Arrived(chunks: seq<string>): string {
    Joined(seq(|chunks|, i requires 0 <= i < |chunks| => CText(chunks[i])))
  }

  function Called(f: Framer, n: nat): Framer
    decreases n
  {
    if n == 0 then f else Called(Step(CMD_TABLE, f, Call), n - 1)
  }

  lemma {:induction false} IdleCalls(f: Framer, n: nat)
    requires '\r' !in f.buf
    ensures Called(f, n) == f
    decreases n
  {
    if n > 0 { IdleCalls(f, n - 1); }
  }

  /** As many calls as there are characters always use up every complete line. */
  lemma {:induction false} EnoughCallsDrain(f: Framer, n: nat)
    requires n >= |f.buf|
    ensures '\r' !in Called(f, n).buf
    decreases n
  {
    if '\r' in f.buf {
      EnoughCallsDrain(Step(CMD_TABLE, f, Call), n - 1);
    } else {
      IdleCalls(f, n);
    }
  }

  // A drain is some number of calls...
  lemma {:induction false} DrainIsCalls(f: Framer) returns (n: nat)
    ensures Drained(f) == Called(f, n)
    decreases |f.buf|
  {
    if '\r' !in f.buf {
      n := 0;
    } else {
      var g := Step(CMD_TABLE, f, Call);
      if Parsed(CMD_TABLE, f.buf[..IndexOf(f.buf, '\r')]) == [] {
        assert Called(f, 1) == Called(g, 0) == g;
        n := 1;
      } else {
        n := DrainIsCalls(g);
        n := n + 1;
      }
    }
  }

  // ... and they belong to a run of the framer that sees the same stream.
  lemma {:induction false} CallsAreARun(acts: seq<Act>, f: Framer, n: nat) returns (more: seq<Act>)
    requires f == Run(CMD_TABLE, acts)
    ensures Run(CMD_TABLE, more) == Called(f, n) && Stream(more) == Stream(acts)
    decreases n
  {
    more := acts;
    if n > 0 {
      var one := acts + [Call];
      assert one[..|acts|] == acts;
      more := CallsAreARun(one, Step(CMD_TABLE, f, Call), n - 1);
    }
  }

  lemma ArrivedOneMore(init: seq<string>, chunk: string)
    ensures Arrived(init + [chunk]) == Arrived(init) + CText(chunk)
  {
    var a := seq(|init|, i requires 0 <= i < |init| => CText(init[i]));
    var b := seq(|init| + 1, i requires 0 <= i < |init| + 1 => CText((init + [chunk])[i]));
    assert b == a + [CText(chunk)];
  }

  lemma {:induction false} ServedIsARun(chunks: seq<string>) returns (acts: seq<Act>)
    ensures Run(CMD_TABLE, acts) == ServedAll(chunks) && Stream(acts) == Arrived(chunks)
    decreases |chunks|
  {
    if chunks == [] {
      acts := [];
    } else {
      var init, chunk := chunks[..|chunks| - 1], chunks[|chunks| - 1];
      var before := ServedIsARun(init);
      assert init + [chunk] == chunks;
      ArrivedOneMore(init, chunk);
      if chunk == "" {
        acts := before;
        assert CText(chunk) == "";
      } else {
        var one := before + [Arrive(CText(chunk))];
        assert one[..|before|] == before;
        var n := DrainIsCalls(Run(CMD_TABLE, one));
        acts := CallsAreARun(one, Run(CMD_TABLE, one), n);
      }
    }
  }

  /** Whatever the reads, and wherever drains stopped, nothing is lost, doubled or taken out
      of order: what was dispatched and what the buffer holds make up the stream. */
  lemma NothingIsLost(chunks: seq<string>)
    ensures var f := ServedAll(chunks);
            f.dispatched + Dispatches(CMD_TABLE, f.buf) == Dispatches(CMD_TABLE, Arrived(chunks))
  {
    var acts := ServedIsARun(chunks);
    FramingIsIndependent(CMD_TABLE, acts);
  }

  // A buffer whose stream holds only answered lines holds only answered lines.
  lemma HeldIsAnswered(acts: seq<Act>)
    requires AllAnswered(CMD_TABLE, Stream(acts))
    ensures AllButLastAnswered(CMD_TABLE, Run(CMD_TABLE, acts).buf)
  {
    var done, rest := RunIsBetween(CMD_TABLE, acts);
    AnsweredBehind(CMD_TABLE, done, rest);
    AllImpliesAllButLast(CMD_TABLE, rest);
    NewlineAnswered(CMD_TABLE, rest);
  }

  /** The daemon keeps up: with every complete line of the stream one it answers, each read
      is drained to the last line, so that exactly the stream's lines have been dispatched. */
  lemma {:induction false} AnsweredStreamIsKeptUp(chunks: seq<string>)
    requires AllAnswered(CMD_TABLE, Arrived(chunks))
    ensures '\r' !in ServedAll(chunks).buf
    ensures ServedAll(chunks).dispatched == Dispatches(CMD_TABLE, Arrived(chunks))
    decreases |chunks|
  {
    if chunks != [] {
      var init, chunk := chunks[..|chunks| - 1], chunks[|chunks| - 1];
      assert init + [chunk] == chunks;
      ArrivedOneMore(init, chunk);
      if chunk == "" {
        assert Arrived(init) == Arrived(chunks);
        AnsweredStreamIsKeptUp(init);
      } else {
        var acts := ServedIsARun(init);
        var one := acts + [Arrive(CText(chunk))];
        assert one[..|acts|] == acts;
        HeldIsAnswered(one);
        DrainsExactly(Run(CMD_TABLE, one));
      }
    }
    NothingIsLost(chunks);
    NoLineNoDispatch(CMD_TABLE, ServedAll(chunks).buf);
  }

  const READ_SIZE := 4096

  /** The cell behind the 4096 characters of the read buffer is the byte the compiler put
      there, which the source writes when a read fills the buffer. */
  class Daemon {
    const readBuf: array<char>
    var pri: int
    var sec: int
    var current: int
    ghost var framer: Framer

    ghost predicate Valid()
      reads this, readBuf
    {
      && readBuf.Length == READ_SIZE + 1 && CString(readBuf, 0, framer.buf)
      && Readings(pri, sec, current) == HandleAll(Readings(0, 0, 0), framer.dispatched)
    }

    constructor ()
      ensures Valid() && framer == Framer("", []) && fresh(readBuf)
    {
      readBuf := new char[READ_SIZE + 1](_ => '\0');
      pri, sec, current := 0, 0, 0;
      framer := Framer("", []);
    }

    // read() appends what has arrived, no more than there is room for, and a NUL behind it.
    method Receive(chunk: string)
      requires Valid() && |framer.buf| + |chunk| <= 4096
      modifies this`framer, readBuf
      ensures Valid() && framer == Step(CMD_TABLE, old(framer), Arrive(CText(chunk)))
    {
      ghost var s, text := framer.buf, CText(chunk);
      var length := 0;
      while readBuf[length] != '\0'
        invariant length <= |s| && CString(readBuf, 0, s) && framer == old(framer)
        decreases |s| - length
      {
        CharAt(readBuf, 0, s, length);
        length := length + 1;
      }
      CharAt(readBuf, 0, s, length);
      for i := 0 to |chunk|
        invariant framer == old(framer)
        invariant forall k :: 0 <= k < |s| ==> readBuf[k] == s[k]
        invariant forall k :: 0 <= k < i ==> readBuf[|s| + k] == chunk[k]
      {
        readBuf[length + i] := chunk[i];
      }
      readBuf[length + |chunk|] := '\0';
      framer := framer.(buf := s + text);
      assert forall k :: 0 <= k < |s + text| ==> readBuf[0 + k] == (s + text)[k];
      CharAtEnd(readBuf, 0, s + text);
    }

    method ReceiveVoltage(buf: string) returns (rv: nat)
      modifies this`pri, this`sec
      ensures Readings(pri, sec, current) == VoltageReceived(old(Readings(pri, sec, current)), buf)
      ensures rv == ReturnOf(Dispatch(0, Some(buf)))
    {
      var ptr := StepOverSpace(buf);
      var ch: int;
      if Matches("Pri", ptr) {
        ch := 0;
      } else if Matches("Sec", ptr) {
        ch := 1;
      } else {
        return 0;
      }
      ptr := StepOverChars(ptr);
      ptr := StepOverSpace(ptr);
      var mv := Atoi(ptr);
      if ch == 0 { pri := mv; } else { sec := mv; }
      rv := 1;
    }

    method Handle(d: Dispatch) returns (rv: nat)
      modifies this`pri, this`sec, this`current
      ensures Readings(pri, sec, current) == Handled(old(Readings(pri, sec, current)), d) && rv == ReturnOf(d)
    {
      rv := 1;
      if d.arg != None {
        if d.cmd == 0 {
          rv := ReceiveVoltage(d.arg.value);
        } else {
          var ptr := StepOverSpace(d.arg.value);
          current := Atoi(ptr);
        }
      }
    }

    /** One call of the framer on the read buffer: -1 when no line was answered. */
    method ProcessOnce() returns (rv: int)
      requires Valid()
      modifies this, readBuf
      ensures Valid() && framer == Step(CMD_TABLE, old(framer), Call)
      ensures var s := old(framer.buf); rv >= 0 <==> '\r' in s && Parsed(CMD_TABLE, s[..IndexOf(s, '\r')]) != []
    {
      ghost var f := framer;
      var d := ProcessString(CMD_TABLE, readBuf, f.buf);
      HandleOneMore(Readings(0, 0, 0), f.dispatched, d);
      framer := Framer(if '\r' in f.buf then Consumed(f.buf) else f.buf, f.dispatched + d);
      rv := -1;
      if d != [] {
        rv := Handle(d[0]);
      }
    }

    /** Calls until a line goes unanswered or none is left: every complete line is used up
        exactly when all but the last are answered, and everything is dispatched exactly
        when no answered line stands behind an unanswered one. */
    method Drain()
      requires Valid()
      modifies this, readBuf
      ensures Valid() && framer == Drained(old(framer))
      ensures '\r' !in framer.buf <==> AllButLastAnswered(CMD_TABLE, old(framer.buf))
      ensures framer.dispatched == old(framer.dispatched) + Dispatches(CMD_TABLE, old(framer.buf))
         <==> AnsweredFirst(CMD_TABLE, old(framer.buf))
    {
      DrainsExactly(framer);
      DispatchesAllExactly(framer);
      var rv := 0;
      while rv >= 0
        invariant Valid()
        invariant (if rv >= 0 then Drained(framer) else framer) == Drained(old(framer))
        decreases rv >= 0, |framer.buf|
      {
        rv := ProcessOnce();
      }
    }

    // The port is readable: one read, and a drain if it brought anything.
    method OnReadable(chunk: string)
      requires Valid() && |framer.buf| + |chunk| <= 4096
      modifies this, readBuf
      ensures Valid() && framer == Served(old(framer), chunk)
      ensures chunk == "" ==> framer == old(framer)
    {
      if |chunk| > 0 {
        Receive(chunk);
        Drain();
      }
    }
  }
}
