/** C strings as sequences of characters, and the pointer-stepping helpers both ends of
    the link share. A pointer into a string is the rest of the string behind it. */
module Text {
  datatype Option<+T> = None | Some(value: T)

  // Texts one behind the other.
  function Joined(chunks: seq<string>): string
    decreases |chunks|
  {
    if chunks == [] then "" else Joined(chunks[..|chunks| - 1]) + chunks[|chunks| - 1]
  }

  lemma JoinedOne(x: string)
    ensures Joined([x]) == x
  {
    assert [x][..0] == [];
  }

  lemma {:induction false} JoinedJoin(a: seq<string>, b: seq<string>)
    ensures Joined(a + b) == Joined(a) + Joined(b)
    decreases |b|
  {
    if b == [] {
      assert a + b == a;
    } else {
      var init, x := b[..|b| - 1], b[|b| - 1];
      assert (a + b)[..|a + b| - 1] == a + init;
      JoinedJoin(a, init);
      JoinAssoc(Joined(a), Joined(init), x);
    }
  }

  lemma {:induction false} JoinedLacks(chunks: seq<string>, c: char)
    requires forall i :: 0 <= i < |chunks| ==> c !in chunks[i]
    ensures c !in Joined(chunks)
    decreases |chunks|
  {
    if chunks != [] { JoinedLacks(chunks[..|chunks| - 1], c); }
  }

  lemma PrefixGrows<T>(s: seq<T>, i: nat)
    requires i < |s|
    ensures s[..i + 1] == s[..i] + [s[i]]
  {}

  lemma JoinAssoc<T>(a: seq<T>, b: seq<T>, c: seq<T>)
    ensures a + b + c == a + (b + c)
  {}

  // isspace in the C locale
  predicate IsSpace(c: char)
    ensures IsSpace(c) <==> c in {' ', '\t', '\n', '\U{000B}', '\U{000C}', '\r'}
  {
    c == ' ' || '\t' <= c <= '\r'
  }

  // A table entry matches a line that begins with it, as strncmp over its length decides.
  predicate Matches(word: string, line: string)
    ensures Matches(word, line) <==> word <= line
  {
    |word| <= |line| && line[..|word|] == word
  }

  // Index of the first c, or the length: strchr.
  function IndexOf(s: string, c: char): (r: nat)
    ensures r <= |s|
    ensures r < |s| ==> s[r] == c
    ensures forall i :: 0 <= i < r ==> s[i] != c
  {
    if s == "" || s[0] == c then 0 else 1 + IndexOf(s[1..], c)
  }

  // The first index is the only one with c there and no c before.
  lemma IndexIs(s: string, c: char, i: nat)
    requires i <= |s| && c !in s[..i] && (i == |s| || s[i] == c)
    ensures IndexOf(s, c) == i
  {}

  // A line as a C string: it ends at its first NUL.
  function CText(s: string): string { s[..IndexOf(s, '\0')] }

  // The test of a loop over a C string, n characters in.
  lemma AtEnd(s: string, n: nat)
    requires n <= |CText(s)|
    ensures n < |s| && s[n] != '\0' <==> n < |CText(s)|
    ensures n < |CText(s)| ==> CText(s)[n] == s[n]
  {}

  lemma PlainText(s: string)
    requires '\0' !in s
    ensures CText(s) == s
  {
    IndexIs(s, '\0', |s|) by { assert s[..|s|] == s; }
  }

  lemma IndexBehind(a: string, b: string, c: char)
    requires c !in a
    ensures IndexOf(a + b, c) == |a| + IndexOf(b, c)
  {
    var i := IndexOf(b, c);
    assert (a + b)[..|a| + i] == a + b[..i];
    assert forall k :: 0 <= k < i ==> b[..i][k] != c;
    assert c !in b[..i];
    IndexIs(a + b, c, |a| + i);
  }

  // How many blanks, or non-blanks, a string begins with.
  function Blanks(s: string): (n: nat)
    ensures n <= |s|
    ensures forall i :: 0 <= i < n ==> IsSpace(s[i])
    ensures n < |s| ==> !IsSpace(s[n])
  {
    if s == "" || !IsSpace(s[0]) then 0 else 1 + Blanks(s[1..])
  }

  function WordLength(s: string): (n: nat)
    ensures n <= |s|
    ensures forall i :: 0 <= i < n ==> !IsSpace(s[i])
    ensures n < |s| ==> IsSpace(s[n])
  {
    if s == "" || IsSpace(s[0]) then 0 else 1 + WordLength(s[1..])
  }

  function SkipSpace(s: string): string { s[Blanks(s)..] }
  function SkipChars(s: string): string { s[WordLength(s)..] }

  lemma BlanksAre(s: string, n: nat)
    requires n <= |s| && (forall i :: 0 <= i < n ==> IsSpace(s[i])) && (n < |s| ==> !IsSpace(s[n]))
    ensures Blanks(s) == n
  {}

  lemma WordLengthIs(s: string, n: nat)
    requires n <= |s| && (forall i :: 0 <= i < n ==> !IsSpace(s[i])) && (n < |s| ==> IsSpace(s[n]))
    ensures WordLength(s) == n
  {}

  lemma SkipsBlanks(a: string, b: string)
    requires forall i :: 0 <= i < |a| ==> IsSpace(a[i])
    ensures SkipSpace(a + b) == SkipSpace(b)
  {
    var n, m := |a| + Blanks(b), Blanks(b);
    assert forall i :: |a| <= i < n ==> (a + b)[i] == b[i - |a|];
    if n < |a + b| { assert (a + b)[n] == b[m]; }
    BlanksAre(a + b, n);
    assert (a + b)[n..] == b[m..];
  }

  lemma SkipsWord(a: string, b: string)
    requires forall i :: 0 <= i < |a| ==> !IsSpace(a[i])
    ensures SkipChars(a + b) == SkipChars(b)
  {
    var n, m := |a| + WordLength(b), WordLength(b);
    assert forall i :: |a| <= i < n ==> (a + b)[i] == b[i - |a|];
    if n < |a + b| { assert (a + b)[n] == b[m]; }
    WordLengthIs(a + b, n);
    assert (a + b)[n..] == b[m..];
  }

  lemma FirstMatchIs(table: seq<string>, line: string, i: nat)
    requires i < |table| && Matches(table[i], line) && forall k :: 0 <= k < i ==> !Matches(table[k], line)
    ensures FirstMatch(table, line) == i
  {}

  lemma NothingMatches(table: seq<string>, line: string)
    requires forall k :: 0 <= k < |table| ==> !Matches(table[k], line)
    ensures FirstMatch(table, line) == |table|
  {}

  // Two words that begin one line agree as far as both go.
  lemma WordsAgree(a: string, b: string, line: string, p: nat)
    requires p < |a| && p < |b| && Matches(a, line)
    ensures Matches(b, line) ==> a[p] == b[p]
  {
    if Matches(b, line) { assert line[..|b|][p] == line[..|a|][p]; }
  }

  // The pointer loops.
  method StepOverSpace(s: string) returns (ptr: string)
    ensures ptr == SkipSpace(s)
  {
    ptr := s;
    ghost var n := 0;
    while ptr != "" && IsSpace(ptr[0])
      invariant n <= |s| && ptr == s[n..] && forall i :: 0 <= i < n ==> IsSpace(s[i])
      decreases |ptr|
    {
      ptr, n := ptr[1..], n + 1;
    }
    BlanksAre(s, n);
  }

  method StepOverChars(s: string) returns (ptr: string)
    ensures ptr == SkipChars(s)
  {
    ptr := s;
    ghost var n := 0;
    while ptr != "" && !IsSpace(ptr[0])
      invariant n <= |s| && ptr == s[n..] && forall i :: 0 <= i < n ==> !IsSpace(s[i])
      decreases |ptr|
    {
      ptr, n := ptr[1..], n + 1;
    }
    WordLengthIs(s, n);
  }

  // Index of the first table entry a line matches, or the length of the table.
  function FirstMatch(table: seq<string>, line: string): (r: nat)
    ensures r <= |table|
    ensures r < |table| ==> Matches(table[r], line)
    ensures forall i :: 0 <= i < r ==> !Matches(table[i], line)
  {
    if table == [] || Matches(table[0], line) then 0 else 1 + FirstMatch(table[1..], line)
  }
}
