/** The daemon's framer: lines cut in place out of a character buffer, looked up in a
    command table, and the buffer closed up behind them. */
module CmdParse {
  import opened Text

  // A table entry chosen for a line and the text behind its colon, if there is any.
  datatype Dispatch = Dispatch(cmd: nat, arg: Option<string>)

  // ---- one line ----

  // A line feed left over from the line before is stepped over.
  function Body(line: string): string {
    if line != "" && line[0] == '\n' then line[1..] else line
  }

  function CommandOf(body: string): string { SkipSpace(body[..IndexOf(body, ':')]) }

  function ArgumentOf(body: string): Option<string> {
    var a := IndexOf(body, ':');
    if a + 1 < |body| then Some(body[a + 1..]) else None
  }

  // What a line dispatches: at most one command.
  function Parsed(table: seq<string>, line: string): seq<Dispatch> {
    var cmd := CommandOf(Body(line));
    var i := FirstMatch(table, cmd);
    if cmd == "" || i == |table| then [] else [Dispatch(i, ArgumentOf(Body(line)))]
  }

  // A further line feed is a blank.
  lemma NewlineIsBlank(b: string)
    ensures CommandOf("\n" + b) == CommandOf(b) && ArgumentOf("\n" + b) == ArgumentOf(b)
  {
    var a := IndexOf(b, ':');
    IndexBehind("\n", b, ':');
    assert ("\n" + b)[..1 + a] == "\n" + b[..a];
    SkipsBlanks("\n", b[..a]);
    if a + 1 < |b| { assert ("\n" + b)[1 + a + 1..] == b[a + 1..]; }
  }

  /** A line feed in front of a line makes no difference. */
  lemma NewlineIsSkipped(table: seq<string>, line: string)
    ensures Parsed(table, "\n" + line) == Parsed(table, line)
  {
    assert Body("\n" + line) == line;
    if line != "" && line[0] == '\n' {
      assert line == "\n" + line[1..];
      NewlineIsBlank(line[1..]);
    }
  }

  lemma BodyParts(blanks: string, cmd: string, tail: string)
    requires (forall i :: 0 <= i < |blanks| ==> IsSpace(blanks[i])) && (cmd == "" || !IsSpace(cmd[0])) && ':' !in cmd
    requires tail == "" || tail[0] == ':'
    ensures CommandOf(blanks + cmd + tail) == cmd
    ensures ArgumentOf(blanks + cmd + tail) == if |tail| > 1 then Some(tail[1..]) else None
  {
    var head := blanks + cmd;
    assert ':' !in head;
    IndexBehind(head, tail, ':');
    IndexIs(tail, ':', 0);
    assert (head + tail)[..|head|] == head;
    if |tail| > 1 { assert (head + tail)[|head| + 1..] == tail[1..]; }
    SkipsBlanks(blanks, cmd);
    BlanksAre(cmd, 0);
    assert cmd[0..] == cmd;
  }

  /** What a line dispatches: behind its blanks, the first table entry that begins the text
      before the colon, with the text behind the colon if there is any; nothing for a blank
      command or one that no entry begins. */
  lemma LineDispatches(table: seq<string>, blanks: string, cmd: string, tail: string, i: nat)
    requires (forall k :: 0 <= k < |blanks| ==> IsSpace(blanks[k])) && (cmd == "" || !IsSpace(cmd[0])) && ':' !in cmd
    requires tail == "" || tail[0] == ':'
    requires i <= |table| && (forall k :: 0 <= k < i ==> !(table[k] <= cmd)) && (i < |table| ==> table[i] <= cmd)
    ensures Parsed(table, blanks + cmd + tail) ==
            if cmd == "" || i == |table| then [] else [Dispatch(i, if |tail| > 1 then Some(tail[1..]) else None)]
  {
    BodyOfParts(blanks, cmd, tail);
    BodyParts(Body(blanks), cmd, tail);
    FirstPrefix(table, cmd, i);
  }

  lemma BodyOfParts(blanks: string, cmd: string, tail: string)
    requires (cmd == "" || !IsSpace(cmd[0])) && (tail == "" || tail[0] == ':')
    ensures Body(blanks + cmd + tail) == Body(blanks) + cmd + tail
  {
    var line := blanks + cmd + tail;
    if blanks != "" {
      assert line[0] == blanks[0] && line[1..] == blanks[1..] + cmd + tail;
    } else if cmd != "" {
      assert line[0] == cmd[0];
    } else {
      assert line == tail;
    }
  }

  lemma FirstPrefix(table: seq<string>, cmd: string, i: nat)
    requires i <= |table| && (forall k :: 0 <= k < i ==> !(table[k] <= cmd)) && (i < |table| ==> table[i] <= cmd)
    ensures FirstMatch(table, cmd) == i
  {
    forall k | 0 <= k < |table| ensures Matches(table[k], cmd) <==> table[k] <= cmd {}
    if i < |table| { FirstMatchIs(table, cmd, i); } else { NothingMatches(table, cmd); }
  }

  // ---- a buffer ----

  // The buffer once its first complete line is gone: the line feed the line began with
  // stays at the front.
  function Consumed(s: string): (r: string)
    requires '\r' in s
    ensures |r| < |s|
  {
    var rest := s[IndexOf(s, '\r') + 1..];
    if s[0] == '\n' then "\n" + rest else rest
  }

  // What the complete lines of a text dispatch, in order.
  function Dispatches(table: seq<string>, s: string): seq<Dispatch>
    decreases |s|
  {
    var i := IndexOf(s, '\r');
    if i == |s| then [] else Parsed(table, s[..i]) + Dispatches(table, s[i + 1..])
  }

  lemma NoLineNoDispatch(table: seq<string>, s: string)
    requires '\r' !in s
    ensures Dispatches(table, s) == []
  {}

  // A text's first line and the rest.
  lemma FirstLine(table: seq<string>, line: string, rest: string)
    requires '\r' !in line
    ensures IndexOf(line + "\r" + rest, '\r') == |line|
    ensures Dispatches(table, line + "\r" + rest) == Parsed(table, line) + Dispatches(table, rest)
  {
    var s := line + "\r" + rest;
    assert s[..|line|] == line && s[|line| + 1..] == rest;
    IndexIs(s, '\r', |line|);
  }

  lemma SplitFirstLine(s: string) returns (line: string, rest: string)
    requires '\r' in s
    ensures '\r' !in line && s == line + "\r" + rest
    ensures line == s[..IndexOf(s, '\r')] && rest == s[IndexOf(s, '\r') + 1..]
  {
    var i := IndexOf(s, '\r');
    line, rest := s[..i], s[i + 1..];
    assert s == s[..i] + [s[i]] + s[i + 1..];
    assert forall k :: 0 <= k < i ==> line[k] == s[k];
  }

  lemma NewlineInFront(table: seq<string>, s: string)
    ensures Dispatches(table, "\n" + s) == Dispatches(table, s)
  {
    if '\r' in s {
      var line, rest := SplitFirstLine(s);
      assert "\n" + s == ("\n" + line) + "\r" + rest;
      FirstLine(table, line, rest);
      FirstLine(table, "\n" + line, rest);
      NewlineIsSkipped(table, line);
    } else {
      NoLineNoDispatch(table, s);
      NoLineNoDispatch(table, "\n" + s);
    }
  }

  // Text that is empty or ends with a carriage return.
  predicate Whole(s: string) { s == "" || s[|s| - 1] == '\r' }

  // A non-empty whole text has a first line and whole text behind it.
  lemma WholeSplits(x: string) returns (line: string, rest: string)
    requires Whole(x) && x != ""
    ensures '\r' !in line && x == line + "\r" + rest && Whole(rest)
  {
    assert x[|x| - 1] == '\r';
    line, rest := SplitFirstLine(x);
    if rest != "" { assert rest[|rest| - 1] == x[|x| - 1]; }
  }

  lemma {:induction false} DispatchesJoin(table: seq<string>, x: string, y: string)
    requires Whole(x)
    ensures Dispatches(table, x + y) == Dispatches(table, x) + Dispatches(table, y)
    decreases |x|
  {
    if x == "" {
      assert x + y == y;
    } else {
      var line, rest := WholeSplits(x);
      JoinAssoc(line + "\r", rest, y);
      DispatchesJoin(table, rest, y);
      FirstLine(table, line, rest);
      FirstLine(table, line, rest + y);
      JoinAssoc(Parsed(table, line), Dispatches(table, rest), Dispatches(table, y));
    }
  }

  // ---- answered lines ----

  // Every complete line dispatches something.
  predicate AllAnswered(table: seq<string>, s: string)
    decreases |s|
  {
    var i := IndexOf(s, '\r');
    i == |s| || (Parsed(table, s[..i]) != [] && AllAnswered(table, s[i + 1..]))
  }

  // ... or every one but the last.
  predicate AllButLastAnswered(table: seq<string>, s: string)
    decreases |s|
  {
    var i := IndexOf(s, '\r');
    i == |s| || '\r' !in s[i + 1..] || (Parsed(table, s[..i]) != [] && AllButLastAnswered(table, s[i + 1..]))
  }

  // No line that dispatches something stands behind one that does not.
  predicate AnsweredFirst(table: seq<string>, s: string)
    decreases |s|
  {
    var i := IndexOf(s, '\r');
    i == |s| ||
    if Parsed(table, s[..i]) == [] then Dispatches(table, s[i + 1..]) == []
    else AnsweredFirst(table, s[i + 1..])
  }

  lemma FirstLineAnswered(table: seq<string>, line: string, rest: string)
    requires '\r' !in line
    ensures var s := line + "\r" + rest;
            && (AllAnswered(table, s) <==> Parsed(table, line) != [] && AllAnswered(table, rest))
            && (AllButLastAnswered(table, s) <==>
                  '\r' !in rest || (Parsed(table, line) != [] && AllButLastAnswered(table, rest)))
            && (AnsweredFirst(table, s) <==>
                  if Parsed(table, line) == [] then Dispatches(table, rest) == [] else AnsweredFirst(table, rest))
  {
    var s := line + "\r" + rest;
    assert s[..|line|] == line && s[|line| + 1..] == rest;
    IndexIs(s, '\r', |line|);
  }

  lemma NewlineAnswered(table: seq<string>, s: string)
    ensures AllAnswered(table, "\n" + s) <==> AllAnswered(table, s)
    ensures AllButLastAnswered(table, "\n" + s) <==> AllButLastAnswered(table, s)
    ensures AnsweredFirst(table, "\n" + s) <==> AnsweredFirst(table, s)
  {
    if '\r' in s {
      var line, rest := SplitFirstLine(s);
      assert "\n" + s == ("\n" + line) + "\r" + rest;
      FirstLineAnswered(table, line, rest);
      FirstLineAnswered(table, "\n" + line, rest);
      NewlineIsSkipped(table, line);
    }
  }

  lemma {:induction false} AllImpliesAllButLast(table: seq<string>, s: string)
    requires AllAnswered(table, s)
    ensures AllButLastAnswered(table, s)
    decreases |s|
  {
    if '\r' in s { AllImpliesAllButLast(table, s[IndexOf(s, '\r') + 1..]); }
  }

  lemma {:induction false} AnsweredBehind(table: seq<string>, x: string, y: string)
    requires Whole(x) && AllAnswered(table, x + y)
    ensures AllAnswered(table, y)
    decreases |x|
  {
    if x == "" {
      assert x + y == y;
    } else {
      var line, rest := WholeSplits(x);
      JoinAssoc(line + "\r", rest, y);
      FirstLineAnswered(table, line, rest + y);
      AnsweredBehind(table, rest, y);
    }
  }

  // ---- whole runs ----

  // Characters arrive in chunks of any size; the framer is called at any moment.
  datatype Act = Arrive(chunk: string) | Call

  datatype Framer = Framer(buf: string, dispatched: seq<Dispatch>)

  function Step(table: seq<string>, f: Framer, act: Act): Framer {
    match act
    case Arrive(chunk) => f.(buf := f.buf + chunk)
    case Call =>
      if '\r' in f.buf
      then Framer(Consumed(f.buf), f.dispatched + Parsed(table, f.buf[..IndexOf(f.buf, '\r')]))
      else f
  }

  function Run(table: seq<string>, acts: seq<Act>): Framer
    decreases |acts|
  {
    if acts == [] then Framer("", []) else Step(table, Run(table, acts[..|acts| - 1]), acts[|acts| - 1])
  }

  // Everything that arrived in a run.
  function Stream(acts: seq<Act>): string
    decreases |acts|
  {
    if acts == [] then ""
    else Stream(acts[..|acts| - 1]) + if acts[|acts| - 1].Arrive? then acts[|acts| - 1].chunk else ""
  }

  /** The framer has dispatched the whole lines done and holds the rest of the stream,
      perhaps behind a left-over line feed. */
  ghost predicate Between(table: seq<string>, f: Framer, done: string, rest: string) {
    && Whole(done)
    && f.dispatched == Dispatches(table, done)
    && (f.buf == rest || f.buf == "\n" + rest)
  }

  lemma CallTakesHead(table: seq<string>, f: Framer, head: string, r: string)
    requires '\r' !in head && f.buf == head + "\r" + r
    ensures '\r' in f.buf
    ensures Step(table, f, Call)
         == Framer(if head != "" && head[0] == '\n' then "\n" + r else r, f.dispatched + Parsed(table, head))
  {
    assert f.buf[|head|] == '\r' && f.buf[0] == (head + "\r")[0];
    FirstLine(table, head, r);
    assert f.buf[..|head|] == head && f.buf[|head| + 1..] == r;
  }

  // What one call does to a buffer that begins with a line, left-over line feed or not.
  lemma CallTakesLine(table: seq<string>, f: Framer, line: string, r: string)
    requires '\r' !in line && (f.buf == line + "\r" + r || f.buf == "\n" + (line + "\r" + r))
    ensures '\r' in f.buf
    ensures var t := Step(table, f, Call);
            t.dispatched == f.dispatched + Parsed(table, line) && (t.buf == r || t.buf == "\n" + r)
  {
    var head := if f.buf == line + "\r" + r then line else "\n" + line;
    assert f.buf == head + "\r" + r;
    CallTakesHead(table, f, head, r);
    NewlineIsSkipped(table, line);
  }

  lemma OneLineDispatches(table: seq<string>, line: string)
    requires '\r' !in line
    ensures Dispatches(table, line + "\r") == Parsed(table, line)
  {
    assert line + "\r" + "" == line + "\r";
    FirstLine(table, line, "");
  }

  lemma CallKeeps(table: seq<string>, f: Framer, done: string, rest: string) returns (done': string, rest': string)
    requires Between(table, f, done, rest) && '\r' in f.buf
    ensures done' + rest' == done + rest && Between(table, Step(table, f, Call), done', rest')
  {
    assert '\r' in rest;
    var line, r := SplitFirstLine(rest);
    CallTakesLine(table, f, line, r);
    OneLineDispatches(table, line);
    DispatchesJoin(table, done, line + "\r");
    done', rest' := done + (line + "\r"), r;
    JoinAssoc(done, line + "\r", r);
    assert Whole(done');
  }

  lemma {:induction false} RunIsBetween(table: seq<string>, acts: seq<Act>) returns (done: string, rest: string)
    ensures Stream(acts) == done + rest && Between(table, Run(table, acts), done, rest)
    decreases |acts|
  {
    if acts == [] {
      done, rest := "", "";
    } else {
      var init, act := acts[..|acts| - 1], acts[|acts| - 1];
      var f := Run(table, init);
      done, rest := RunIsBetween(table, init);
      if act.Arrive? {
        JoinAssoc(done, rest, act.chunk);
        JoinAssoc("\n", rest, act.chunk);
        rest := rest + act.chunk;
      } else {
        assert Stream(acts) == Stream(init);
        if '\r' in f.buf { done, rest := CallKeeps(table, f, done, rest); }
      }
    }
  }

  /** Framing does not depend on chunking: in any run what has been dispatched, followed by
      what the buffer still holds, is what the lines of the whole stream dispatch. */
  lemma FramingIsIndependent(table: seq<string>, acts: seq<Act>)
    ensures var f := Run(table, acts);
            f.dispatched + Dispatches(table, f.buf) == Dispatches(table, Stream(acts))
  {
    var done, rest := RunIsBetween(table, acts);
    DispatchesJoin(table, done, rest);
    NewlineInFront(table, rest);
  }

  /** Once the framer has been called until no carriage return is left, it has dispatched
      exactly the stream's lines, however the stream was cut and whenever it was called. */
  lemma DrainedRunsDispatchTheStream(table: seq<string>, acts: seq<Act>)
    requires '\r' !in Run(table, acts).buf
    ensures Run(table, acts).dispatched == Dispatches(table, Stream(acts))
  {
    FramingIsIndependent(table, acts);
    NoLineNoDispatch(table, Run(table, acts).buf);
  }

  // ---- in place ----

  // The characters s and a NUL behind them stand at index at.
  ghost predicate CString(buf: array<char>, at: nat, s: string)
    reads buf
  {
    && '\0' !in s && at + |s| < buf.Length
    && (forall i :: 0 <= i < |s| ==> buf[at + i] == s[i])
    && buf[at + |s|] == '\0'
  }

  lemma CharAt(buf: array<char>, at: nat, s: string, n: nat)
    requires CString(buf, at, s) && n <= |s|
    ensures at + n < buf.Length
    ensures if n < |s| then buf[at + n] == s[n] != '\0' else buf[at + n] == '\0'
  {}

  method StrChr(buf: array<char>, at: nat, c: char, ghost s: string) returns (found: bool, r: nat)
    requires CString(buf, at, s) && c != '\0'
    ensures found == (IndexOf(s, c) < |s|) && (found ==> r == at + IndexOf(s, c))
  {
    ghost var n := 0;
    r := at;
    while buf[r] != '\0'
      invariant n <= |s| && r == at + n && c !in s[..n]
      decreases |s| - n
    {
      CharAt(buf, at, s, n);
      if buf[r] == c {
        IndexIs(s, c, n);
        return true, r;
      }
      r, n := r + 1, n + 1;
    }
    CharAt(buf, at, s, n);
    assert s[..n] == s;
    IndexIs(s, c, n);
    return false, r;
  }

  method SkipSpaceAt(buf: array<char>, at: nat, ghost s: string) returns (r: nat)
    requires CString(buf, at, s)
    ensures r == at + Blanks(s)
  {
    ghost var n := 0;
    r := at;
    while IsSpace(buf[r])
      invariant n <= |s| && r == at + n && forall i :: 0 <= i < n ==> IsSpace(s[i])
      decreases |s| - n
    {
      CharAt(buf, at, s, n);
      r, n := r + 1, n + 1;
    }
    CharAt(buf, at, s, n);
    BlanksAre(s, n);
  }

  // strncmp over the length of the table's word
  method StartsWith(buf: array<char>, at: nat, word: string, ghost s: string) returns (yes: bool)
    requires CString(buf, at, s) && '\0' !in word
    ensures yes == Matches(word, s)
  {
    for i := 0 to |word|
      invariant i <= |s| && word[..i] == s[..i]
    {
      CharAt(buf, at, s, i);
      assert i < |s| && Matches(word, s) ==> s[..|word|][i] == s[i];
      if buf[at + i] != word[i] {
        return false;
      }
    }
    assert word[..|word|] == word;
    return true;
  }

  // The element of the table the command begins with, if any.
  method Lookup(buf: array<char>, at: nat, table: seq<string>, ghost s: string) returns (i: nat)
    requires CString(buf, at, s) && forall k :: 0 <= k < |table| ==> '\0' !in table[k]
    ensures i == FirstMatch(table, s)
  {
    i := 0;
    while i < |table|
      invariant i <= |table| && forall k :: 0 <= k < i ==> !Matches(table[k], s)
    {
      var yes := StartsWith(buf, at, table[i], s);
      if yes { return; }
      i := i + 1;
    }
  }

  // The text behind index from, up to the NUL.
  method TextAt(buf: array<char>, from: nat, ghost s: string) returns (r: string)
    requires CString(buf, from, s)
    ensures r == s
  {
    var n := from;
    while buf[n] != '\0'
      invariant from <= n <= from + |s|
      decreases from + |s| - n
    {
      CharAt(buf, from, s, n - from);
      n := n + 1;
    }
    CharAt(buf, from, s, n - from);
    r := buf[from..n];
  }

  // memmove(string + to, string + from, strlen(string + from) + 1), towards the front
  method MoveDown(buf: array<char>, to: nat, from: nat, ghost s: string)
    requires CString(buf, from, s) && to <= from
    modifies buf
    ensures CString(buf, to, s) && forall i :: 0 <= i < to ==> buf[i] == old(buf[i])
  {
    var n := 0;
    var c := buf[from];
    buf[to] := c;
    while c != '\0'
      invariant n <= |s| && c == (if n < |s| then s[n] else '\0')
      invariant forall i :: 0 <= i < n ==> buf[to + i] == s[i]
      invariant buf[to + n] == c
      invariant forall i :: 0 <= i < to ==> buf[i] == old(buf[i])
      invariant forall i :: to + n < i < buf.Length ==> buf[i] == old(buf[i])
      decreases |s| - n
    {
      n := n + 1;
      c := buf[from + n];
      buf[to + n] := c;
    }
  }

  // Cut the text at its colon and take what is behind it, if anything is.
  method CutArgument(buf: array<char>, base: nat, ghost body: string) returns (arg: Option<string>)
    requires CString(buf, base, body)
    modifies buf
    ensures forall i :: 0 <= i < buf.Length && !(base <= i < base + |body|) ==> buf[i] == old(buf[i])
    ensures CString(buf, base, body[..IndexOf(body, ':')]) && arg == ArgumentOf(body)
  {
    ghost var a := IndexOf(body, ':');
    var found, colon := StrChr(buf, base, ':', body);
    arg := None;
    if found {
      CharAt(buf, base, body, a + 1);
      buf[colon] := '\0';
      if buf[colon + 1] != '\0' {
        ghost var text := body[a + 1..];
        assert CString(buf, colon + 1, text);
        var taken := TextAt(buf, colon + 1, text);
        arg := Some(taken);
      }
    } else {
      assert body[..a] == body;
    }
  }

  // What the line at the front dispatches. The colon is overwritten with a NUL.
  method ParseLine(buf: array<char>, base: nat, table: seq<string>, ghost body: string) returns (d: seq<Dispatch>)
    requires CString(buf, base, body) && forall k :: 0 <= k < |table| ==> '\0' !in table[k]
    modifies buf
    ensures forall i :: 0 <= i < buf.Length && !(base <= i < base + |body|) ==> buf[i] == old(buf[i])
    ensures var i := FirstMatch(table, CommandOf(body));
            d == if CommandOf(body) == "" || i == |table| then [] else [Dispatch(i, ArgumentOf(body))]
  {
    var cmd := SkipSpaceAt(buf, base, body);
    CommandStands(body);
    var arg := CutArgument(buf, base, body);
    ghost var word := CommandOf(body);
    assert CString(buf, cmd, word);
    CharAt(buf, cmd, word, 0);
    d := [];
    if buf[cmd] != '\0' {
      var i := Lookup(buf, cmd, table, word);
      if i < |table| {
        d := [Dispatch(i, arg)];
      }
    }
  }

  // The command is the stretch between the leading blanks and the colon.
  lemma CommandStands(body: string)
    ensures var a, n := IndexOf(body, ':'), Blanks(body);
            n <= a && CommandOf(body) == body[n..a]
  {
    var a, n := IndexOf(body, ':'), Blanks(body);
    assert a < |body| ==> !IsSpace(body[a]);
    BlanksAre(body[..a], n);
    assert body[..a][n..] == body[n..a];
  }

  // End the first line with a NUL; the rest begins behind it.
  method CutLine(buf: array<char>, ghost s: string) returns (found: bool, end: nat)
    requires CString(buf, 0, s)
    modifies buf
    ensures found == ('\r' in s)
    ensures if found
            then && end == IndexOf(s, '\r') + 1 && CString(buf, 0, s[..IndexOf(s, '\r')])
                 && CString(buf, end, s[IndexOf(s, '\r') + 1..])
            else CString(buf, 0, s)
  {
    found, end := StrChr(buf, 0, '\r', s);
    if found {
      ghost var line, rest := s[..end], s[end + 1..];
      buf[end] := '\0';
      end := end + 1;
      assert forall k :: 0 <= k < |rest| ==> buf[end + k] == rest[k];
      CharAtEnd(buf, end, rest);
    } else {
      NotIn(s, '\r');
    }
  }

  lemma CharAtEnd(buf: array<char>, end: nat, rest: string)
    requires end + |rest| < buf.Length && buf[end + |rest|] == '\0' && '\0' !in rest
    requires forall k :: 0 <= k < |rest| ==> buf[end + k] == rest[k]
    ensures CString(buf, end, rest)
  {}

  lemma NotIn(s: string, c: char)
    requires IndexOf(s, c) == |s|
    ensures c !in s
  {}

  // The line's text behind a leading line feed.
  method SkipNewline(buf: array<char>, ghost line: string) returns (base: nat)
    requires CString(buf, 0, line)
    ensures base <= 1 && base <= |line| && (base == 1 <==> line != "" && line[0] == '\n')
    ensures CString(buf, base, Body(line)) && (base == 1 ==> buf[0] == '\n')
  {
    CharAt(buf, 0, line, 0);
    base := 0;
    if buf[0] == '\n' {
      base := 1;
      CharAtEnd(buf, 1, line[1..]);
    }
  }

  lemma NewlineStays(buf: array<char>, rest: string)
    requires CString(buf, 1, rest) && buf[0] == '\n'
    ensures CString(buf, 0, "\n" + rest)
  {}

  /** One call: if the buffer holds a complete line, dispatch it and close the buffer up. */
  method ProcessString(table: seq<string>, buf: array<char>, ghost s: string) returns (d: seq<Dispatch>)
    requires CString(buf, 0, s) && forall k :: 0 <= k < |table| ==> '\0' !in table[k]
    modifies buf
    ensures CString(buf, 0, if '\r' in s then Consumed(s) else s)
    ensures d == if '\r' in s then Parsed(table, s[..IndexOf(s, '\r')]) else []
  {
    d := [];
    var found, end := CutLine(buf, s);
    if found {
      ghost var line, rest := s[..IndexOf(s, '\r')], s[IndexOf(s, '\r') + 1..];
      var base := SkipNewline(buf, line);
      d := ParseLine(buf, base, table, Body(line));
      MoveDown(buf, base, end, rest);
      if base == 1 { NewlineStays(buf, rest); }
    }
  }
}
