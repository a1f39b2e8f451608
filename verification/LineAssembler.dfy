/** The firmware's line assembler: received characters gathered in MsgBuf until a carriage
    return or line feed hands the line on. */
module LineAssembler {
  const RX_SIZE := 256

  predicate IsTerminator(c: char) { c == '\r' || c == '\n' }

  /** The unfinished line, the lines handed on so far, and whether a terminator was ever
      written to the place behind the 256 characters of the buffer. */
  datatype Assembly = Assembly(current: string, lines: seq<string>, spilled: bool)

  const NOTHING := Assembly("", [], false)

  // A line takes no more than the buffer's 256 characters.
  function Feed(a: Assembly, c: char): Assembly {
    if IsTerminator(c) then
      if a.current == "" then a else a.(current := "", lines := a.lines + [a.current])
    else if |a.current| < RX_SIZE then
      a.(current := a.current + [c], spilled := a.spilled || |a.current| + 1 == RX_SIZE)
    else a
  }

  function FeedAll(a: Assembly, input: string): Assembly
    decreases |input|
  {
    if input == "" then a else Feed(FeedAll(a, input[..|input| - 1]), input[|input| - 1])
  }

  // ---- what it computes: splitting at terminators ----

  // Index of the first terminator, or the length.
  function FirstTerminator(s: string): (r: nat)
    ensures r <= |s|
    ensures r < |s| ==> s[r] == '\r' || s[r] == '\n'
    ensures forall i :: 0 <= i < r ==> s[i] != '\r' && s[i] != '\n'
  {
    if s == "" || IsTerminator(s[0]) then 0 else 1 + FirstTerminator(s[1..])
  }

  // The stretches between terminators, the unterminated one last.
  function Split(s: string): (r: seq<string>)
    ensures r != []
    decreases |s|
  {
    var i := FirstTerminator(s);
    if i == |s| then [s] else [s[..i]] + Split(s[i + 1..])
  }

  // As much of a stretch as the buffer takes.
  function Cut(s: string): string { if |s| <= 256 then s else s[..256] }

  // The stretches that are not empty, each cut to the buffer.
  function NonEmpty(ss: seq<string>): seq<string> {
    if ss == [] then [] else (if ss[0] == "" then [] else [Cut(ss[0])]) + NonEmpty(ss[1..])
  }

  ghost predicate AllShort(ss: seq<string>) {
    forall i :: 0 <= i < |ss| ==> |ss[i]| <= 255
  }

  // One more character at the end of the input changes only the last stretch.
  function LastExtended(p: seq<string>, c: char): seq<string>
    requires p != []
  {
    if IsTerminator(c) then p + [""] else p[..|p| - 1] + [p[|p| - 1] + [c]]
  }

  lemma SplitUnterminated(s: string, c: char)
    requires FirstTerminator(s) == |s|
    ensures Split(s + [c]) == LastExtended([s], c)
  {
    var t := s + [c];
    FirstTerminatorIs(t, if IsTerminator(c) then |s| else |t|);
    if IsTerminator(c) {
      assert t[..|s|] == s && t[|s| + 1..] == "";
      assert Split("") == [""];
    }
  }

  lemma {:induction false} SplitOneMore(s: string, c: char)
    ensures Split(s + [c]) == LastExtended(Split(s), c)
    decreases |s|
  {
    var i, t := FirstTerminator(s), s + [c];
    if i == |s| {
      SplitUnterminated(s, c);
    } else {
      var rest, q := s[i + 1..], Split(s[i + 1..]);
      FirstTerminatorIs(t, i);
      assert t[i + 1..] == rest + [c] && t[..i] == s[..i];
      SplitOneMore(rest, c);
      LaterExtended(s[..i], q, c);
    }
  }

  lemma LaterExtended(x: string, q: seq<string>, c: char)
    requires q != []
    ensures LastExtended([x] + q, c) == [x] + LastExtended(q, c)
  {}

  lemma FirstTerminatorIs(s: string, i: nat)
    requires i <= |s| && (i == |s| || IsTerminator(s[i])) && forall k :: 0 <= k < i ==> !IsTerminator(s[k])
    ensures FirstTerminator(s) == i
  {}

  lemma {:induction false} NonEmptyOneMore(ss: seq<string>, x: string)
    ensures NonEmpty(ss + [x]) == NonEmpty(ss) + if x == "" then [] else [Cut(x)]
  {
    if ss == [] {
      assert ss + [x] == [x];
    } else {
      NonEmptyOneMore(ss[1..], x);
      assert (ss + [x])[1..] == ss[1..] + [x];
    }
  }

  // The state that belongs to a split input.
  ghost function AssemblyOf(p: seq<string>): Assembly
    requires p != []
  {
    Assembly(Cut(p[|p| - 1]), NonEmpty(p[..|p| - 1]), !AllShort(p))
  }

  lemma ShortOneMore(p: seq<string>, c: char)
    requires p != []
    ensures AllShort(LastExtended(p, c)) <==> AllShort(p) && (IsTerminator(c) || |p[|p| - 1]| + 1 < RX_SIZE)
  {
    var n, q := |p| - 1, LastExtended(p, c);
    assert forall i :: 0 <= i < n ==> q[i] == p[i];
    if IsTerminator(c) {
      assert q[n] == p[n] && q[n + 1] == "";
    } else {
      assert q[n] == p[n] + [c];
    }
  }

  lemma FeedTerminator(p: seq<string>, c: char)
    requires p != [] && IsTerminator(c)
    ensures Feed(AssemblyOf(p), c) == AssemblyOf(p + [""])
  {
    var n := |p| - 1;
    ShortOneMore(p, c);
    NonEmptyOneMore(p[..n], p[n]);
    assert p[..n] + [p[n]] == p && (p + [""])[..|p|] == p;
  }

  lemma FeedCharacter(p: seq<string>, c: char)
    requires p != [] && !IsTerminator(c)
    ensures Feed(AssemblyOf(p), c) == AssemblyOf(LastExtended(p, c))
  {
    var n, q := |p| - 1, LastExtended(p, c);
    ShortOneMore(p, c);
    assert q[..|q| - 1] == p[..n];
    assert AllShort(p) ==> |p[n]| < RX_SIZE;
  }

  /** Lines handed on are the non-empty stretches between terminators, in order and cut to
      256 characters; the unfinished line is the last stretch; and the place behind the
      buffer has been written if and only if some stretch is longer than 255 characters. */
  lemma {:induction false} AssemblesTheSplit(input: string)
    ensures FeedAll(NOTHING, input) == AssemblyOf(Split(input))
    decreases |input|
  {
    if input == "" {
      assert Split(input) == [""];
    } else {
      var init, c := input[..|input| - 1], input[|input| - 1];
      AssemblesTheSplit(init);
      SplitOneMore(init, c);
      assert init + [c] == input;
      if IsTerminator(c) { FeedTerminator(Split(init), c); } else { FeedCharacter(Split(init), c); }
    }
  }

  /** With no stretch over 255 characters nothing is written outside the buffer, and every
      non-empty stretch is handed on whole. */
  lemma ShortLinesComeWhole(input: string)
    ensures !FeedAll(NOTHING, input).spilled <==> AllShort(Split(input))
    ensures AllShort(Split(input)) ==> FeedAll(NOTHING, input).current == Split(input)[|Split(input)| - 1]
    ensures AllShort(Split(input)) ==> FeedAll(NOTHING, input).lines == Whole(Split(input)[..|Split(input)| - 1])
  {
    AssemblesTheSplit(input);
    var p := Split(input);
    if AllShort(p) {
      var q := p[..|p| - 1];
      assert AllShort(q) by { assert forall i :: 0 <= i < |q| ==> q[i] == p[i]; }
      NothingCut(q);
    }
  }

  // The stretches that are not empty, at full length.
  function Whole(ss: seq<string>): seq<string> {
    if ss == [] then [] else (if ss[0] == "" then [] else [ss[0]]) + Whole(ss[1..])
  }

  lemma {:induction false} NothingCut(ss: seq<string>)
    requires AllShort(ss)
    ensures NonEmpty(ss) == Whole(ss)
  {
    if ss != [] {
      assert forall i :: 0 <= i < |ss[1..]| ==> ss[1..][i] == ss[i + 1];
      NothingCut(ss[1..]);
    }
  }

  /** However the input is cut into arrivals the outcome is the same. */
  lemma {:induction false} ArrivalsJoin(a: Assembly, x: string, y: string)
    ensures FeedAll(FeedAll(a, x), y) == FeedAll(a, x + y)
    decreases |y|
  {
    if y == "" {
      assert x + y == x;
    } else {
      ArrivalsJoin(a, x, y[..|y| - 1]);
      assert (x + y)[..|x + y| - 1] == x + y[..|y| - 1];
    }
  }

  // Lines once handed on stay.
  lemma {:induction false} LinesGrow(a: Assembly, input: string)
    ensures a.lines <= FeedAll(a, input).lines
    decreases |input|
  {
    if input != "" { LinesGrow(a, input[..|input| - 1]); }
  }
}
