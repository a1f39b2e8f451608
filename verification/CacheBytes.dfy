/** Runs of bytes through the cache: the multi-byte and string accessors as sequences of
    single-byte ones, their round trips, and what they leave alone. */
module CacheBytes {
  import opened Words
  import opened CacheModel
  import opened FlatMemory
  import opened CacheSteps
  import opened CacheRuns

  // Address arithmetic wraps at 32 bits.
  function Plus(addr: u32, i: nat): u32 { (addr + i) % 0x1_0000_0000 }

  function Reads(addr: u32, n: nat): seq<Op> {
    seq(n, i requires 0 <= i < n => ReadOp(Plus(addr, i)))
  }

  function Writes(addr: u32, bs: seq<byte>): seq<Op> {
    seq(|bs|, i requires 0 <= i < |bs| => WriteOp(Plus(addr, i), bs[i]))
  }

  lemma ReadsOneMore(addr: u32, n: nat)
    ensures Reads(addr, n + 1) == Reads(addr, n) + [ReadOp(Plus(addr, n))]
  {}

  lemma {:induction false} ReadsAnswer(s: State, addr: u32, n: nat)
    requires s.Wf()
    ensures |Outputs(s, Reads(addr, n))| == n
    decreases n
  {
    if n > 0 {
      ReadsAnswer(s, addr, n - 1);
      ReadsOneMore(addr, n - 1);
      OutputsOneMore(s, Reads(addr, n - 1), ReadOp(Plus(addr, n - 1)));
    }
  }

  // The bytes a run of reads returns.
  function BytesRead(s: State, addr: u32, n: nat): (r: seq<byte>)
    requires s.Wf()
    ensures |r| == n
  {
    ReadsAnswer(s, addr, n);
    Outputs(s, Reads(addr, n))
  }

  lemma PlusPlus(addr: u32, n: nat, i: nat)
    ensures Plus(Plus(addr, n), i) == Plus(addr, n + i)
  {}

  lemma ReadOneMore(s: State, addr: u32, n: nat)
    requires s.Wf()
    ensures Run(s, Reads(addr, n + 1)) == Fill(Run(s, Reads(addr, n)), PageOf(Plus(addr, n)))
    ensures BytesRead(s, addr, n + 1) == BytesRead(s, addr, n) + [Read1(Run(s, Reads(addr, n)), Plus(addr, n))]
  {
    ReadsOneMore(addr, n);
    RunOneMore(s, Reads(addr, n), ReadOp(Plus(addr, n)));
    OutputsOneMore(s, Reads(addr, n), ReadOp(Plus(addr, n)));
  }

  lemma WriteOneMore(s: State, addr: u32, bs: seq<byte>, b: byte)
    requires s.Wf()
    ensures Run(s, Writes(addr, bs + [b])) == Write1(Run(s, Writes(addr, bs)), Plus(addr, |bs|), b)
  {
    assert Writes(addr, bs + [b]) == Writes(addr, bs) + [WriteOp(Plus(addr, |bs|), b)];
    RunOneMore(s, Writes(addr, bs), WriteOp(Plus(addr, |bs|), b));
  }

  // Runs of one operation and of two.
  lemma RunOne(s: State, op: Op)
    requires s.Wf()
    ensures Run(s, [op]) == Step(s, op) && Outputs(s, [op]) == Answer(s, op)
  {
    assert [] + [op] == [op];
    RunOneMore(s, [], op);
    OutputsOneMore(s, [], op);
  }

  lemma RunTwo(s: State, op: Op, next: Op)
    requires s.Wf()
    ensures Run(s, [op, next]) == Step(Step(s, op), next)
  {
    assert [op] + [next] == [op, next];
    RunOne(s, op);
    RunOneMore(s, [op], next);
  }

  lemma NoReads(s: State, addr: u32)
    requires s.Wf()
    ensures Run(s, Reads(addr, 0)) == s && BytesRead(s, addr, 0) == []
  {}

  lemma ReadFirst(s: State, addr: u32)
    requires s.Wf()
    ensures Run(s, Reads(addr, 1)) == Fill(s, PageOf(addr)) && BytesRead(s, addr, 1) == [Read1(s, addr)]
  {
    assert Reads(addr, 1) == [ReadOp(addr)];
    RunOne(s, ReadOp(addr));
  }

  lemma ReadTwo(s: State, addr: u32)
    requires s.Wf()
    ensures Run(s, Reads(addr, 2)) == Fill(Fill(s, PageOf(addr)), PageOf(Plus(addr, 1)))
    ensures BytesRead(s, addr, 2) == [Read1(s, addr)] + [Read1(Fill(s, PageOf(addr)), Plus(addr, 1))]
  {
    ReadFirst(s, addr);
    ReadOneMore(s, addr, 1);
  }

  lemma WriteTwo(s: State, addr: u32, a: byte, b: byte)
    requires s.Wf()
    ensures Run(s, Writes(addr, [a, b])) == Write1(Write1(s, addr, a), Plus(addr, 1), b)
  {
    assert Writes(addr, [a, b]) == [WriteOp(addr, a), WriteOp(Plus(addr, 1), b)];
    RunTwo(s, WriteOp(addr, a), WriteOp(Plus(addr, 1), b));
  }

  lemma ReadsJoin(addr: u32, n: nat, m: nat)
    ensures Reads(addr, n + m) == Reads(addr, n) + Reads(Plus(addr, n), m)
  {
    forall i | 0 <= i < m ensures Plus(Plus(addr, n), i) == Plus(addr, n + i) { PlusPlus(addr, n, i); }
  }

  /** Two adjacent runs of reads are one. */
  lemma BytesReadJoin(s: State, addr: u32, n: nat, m: nat)
    requires s.Wf()
    ensures Run(s, Reads(addr, n + m)) == Run(Run(s, Reads(addr, n)), Reads(Plus(addr, n), m))
    ensures BytesRead(s, addr, n + m) == BytesRead(s, addr, n) + BytesRead(Run(s, Reads(addr, n)), Plus(addr, n), m)
  {
    ReadsJoin(addr, n, m);
    RunJoin(s, Reads(addr, n), Reads(Plus(addr, n), m));
    OutputsJoin(s, Reads(addr, n), Reads(Plus(addr, n), m));
  }

  /** Two adjacent runs of writes are one. */
  lemma WritesJoin(s: State, addr: u32, a: seq<byte>, b: seq<byte>)
    requires s.Wf()
    ensures Run(Run(s, Writes(addr, a)), Writes(Plus(addr, |a|), b)) == Run(s, Writes(addr, a + b))
  {
    forall i | 0 <= i < |b| ensures Plus(Plus(addr, |a|), i) == Plus(addr, |a| + i) { PlusPlus(addr, |a|, i); }
    assert Writes(addr, a) + Writes(Plus(addr, |a|), b) == Writes(addr, a + b);
    RunJoin(s, Writes(addr, a), Writes(Plus(addr, |a|), b));
  }

  // How far index k of the array lies behind an address, around the address space.
  function Behind(addr: u32, k: nat): nat { (k - addr) % ADDRESS_SPACE }

  lemma BehindExactly(addr: u32, i: nat, k: nat)
    requires i < ADDRESS_SPACE && k < ADDRESS_SPACE
    ensures FlatIndex(Plus(addr, i)) == k <==> Behind(addr, k) == i
  {}

  lemma {:induction false} LastWrittenByRun(addr: u32, bs: seq<byte>, k: nat, otherwise: byte)
    requires k < ADDRESS_SPACE && |bs| <= ADDRESS_SPACE
    ensures LastWritten(Writes(addr, bs), k, otherwise)
         == if Behind(addr, k) < |bs| then bs[Behind(addr, k)] else otherwise
    decreases |bs|
  {
    if bs != [] {
      var n := |bs| - 1;
      LastWrittenByRun(addr, bs[..n], k, otherwise);
      BehindExactly(addr, n, k);
      assert Writes(addr, bs)[..n] == Writes(addr, bs[..n]);
    }
  }

  /** Writing a run of bytes sets exactly the bytes it covers - across pages, evictions,
      wrap-around and range ends - and leaves every other byte of the array as it was. */
  lemma WritesCoverExactly(s: State, addr: u32, bs: seq<byte>, k: nat)
    requires s.Inv() && k < |Flat(s)| && |bs| <= ADDRESS_SPACE
    ensures Run(s, Writes(addr, bs)).Inv() && |Flat(Run(s, Writes(addr, bs)))| == |Flat(s)|
    ensures Flat(Run(s, Writes(addr, bs)))[k] == if Behind(addr, k) < |bs| then bs[Behind(addr, k)] else Flat(s)[k]
  {
    RunRefinesFlatArray(s, Writes(addr, bs));
    FlatRunRemembersLastWrite(Flat(s), Writes(addr, bs), k);
    assert |Flat(s)| <= 65535 * 512 <= ADDRESS_SPACE;
    LastWrittenByRun(addr, bs, k, Flat(s)[k]);
  }

  lemma {:induction false} FlatRunIgnoresReads(m: seq<byte>, addr: u32, n: nat)
    ensures FlatRun(m, Reads(addr, n)) == m
    decreases n
  {
    if n > 0 {
      FlatRunIgnoresReads(m, addr, n - 1);
      assert Reads(addr, n)[..n - 1] == Reads(addr, n - 1);
    }
  }

  lemma ReadsSplit(addr: u32, k: nat, n: nat)
    requires k <= n
    ensures Reads(addr, n) == Reads(addr, k) + Reads(Plus(addr, k), n - k)
  {}

  lemma BytesReadPrefix(s: State, addr: u32, k: nat, n: nat)
    requires s.Wf() && k <= n
    ensures BytesRead(s, addr, n)[..k] == BytesRead(s, addr, k)
  {
    var a, b := Reads(addr, k), Reads(Plus(addr, k), n - k);
    ReadsSplit(addr, k, n);
    OutputsPrefix(s, a, b);
    assert Outputs(s, Reads(addr, n)) == Outputs(s, a + b);
  }

  lemma {:induction false} FlatReads(m: seq<byte>, addr: u32, n: nat, i: nat)
    requires i < n && ReadsInRange(|m|, Reads(addr, n))
    ensures |FlatOutputs(m, Reads(addr, n))| == n
    ensures FlatIndex(Plus(addr, i)) < |m| && FlatOutputs(m, Reads(addr, n))[i] == m[FlatIndex(Plus(addr, i))]
    decreases n
  {
    var init := Reads(addr, n - 1);
    assert Reads(addr, n)[..n - 1] == init && Reads(addr, n)[i] == ReadOp(Plus(addr, i));
    FlatRunIgnoresReads(m, addr, n - 1);
    if n > 1 { FlatReads(m, addr, n - 1, if i < n - 1 then i else 0); }
  }

  /** Reading a run of bytes in range shows the flat array, byte by byte, and changes
      nothing in it. */
  lemma ReadsShowFlat(s: State, addr: u32, n: nat, i: nat)
    requires s.Inv() && i < n && AllInRange(s, addr, n)
    ensures Flat(Run(s, Reads(addr, n))) == Flat(s)
    ensures BytesRead(s, addr, n)[i] == Flat(s)[FlatIndex(Plus(addr, i))]
  {
    RunRefinesFlatArray(s, Reads(addr, n));
    FlatRunIgnoresReads(Flat(s), addr, n);
    OutputsAreTheFlatArrays(s, Reads(addr, n));
    FlatReads(Flat(s), addr, n, i);
  }

  // Every one of n addresses from addr on lies in the token's pages.
  ghost predicate AllInRange(s: State, addr: u32, n: nat)
    requires s.Wf()
  {
    forall i :: 0 <= i < n ==> FlatIndex(Plus(addr, i)) < |Flat(s)|
  }

  /** What is written in range is what is read back, for any length up to the address
      space and with any number of slots, one included. */
  lemma BytesRoundTrip(s: State, addr: u32, bs: seq<byte>)
    requires s.Inv() && |bs| <= ADDRESS_SPACE && AllInRange(s, addr, |bs|)
    ensures BytesRead(Run(s, Writes(addr, bs)), addr, |bs|) == bs
  {
    var t := Run(s, Writes(addr, bs));
    RunRefinesFlatArray(s, Writes(addr, bs));
    forall i | 0 <= i < |bs| ensures BytesRead(t, addr, |bs|)[i] == bs[i] {
      var k := FlatIndex(Plus(addr, i));
      WritesCoverExactly(s, addr, bs, k);
      ReadsShowFlat(t, addr, |bs|, i);
      BehindExactly(addr, i, k);
    }
  }

  // ---- little-endian words ----

  function Bytes2(v: u16): (r: seq<byte>)
    ensures |r| == 2 && v == r[0] as int + 256 * r[1] as int
  {
    [v % 256, v / 256]
  }

  function Bytes4(v: u32): (r: seq<byte>)
    ensures |r| == 4
    ensures v == r[0] as int + 256 * r[1] as int + 65536 * r[2] as int + 16777216 * r[3] as int
  {
    Bytes2(v % 0x1_0000) + Bytes2(v / 0x1_0000)
  }

  lemma Halves(lo: byte, hi: byte)
    ensures hi as int * 256 + lo < 0x1_0000 && Bytes2(hi as int * 256 + lo) == [lo, hi]
  {}

  function Word2(lo: byte, hi: byte): (r: u16)
    ensures Bytes2(r) == [lo, hi]
  {
    Combine8(lo, hi);
    Halves(lo, hi);
    BitOr(lo, hi as int * 256)
  }

  lemma Combine8(lo: byte, hi: byte)
    ensures BitOr(lo, hi as int * 256) == hi as int * 256 + lo
  {
    BitOrCommutes(lo, hi as int * 256);
    PowersOfTwo();
    BitOrDisjoint(hi, lo, 8);
  }

  function Word4(lo: u16, hi: u16): (r: u32)
    ensures Bytes4(r) == Bytes2(lo) + Bytes2(hi)
  {
    Combine16(lo, hi);
    Quarters(lo, hi, BitOr(lo, hi as int * 0x1_0000));
    BitOr(lo, hi as int * 0x1_0000)
  }

  lemma Quarters(lo: u16, hi: u16, v: int)
    requires v == hi as int * 0x1_0000 + lo
    ensures 0 <= v < 0x1_0000_0000 && Bytes4(v) == Bytes2(lo) + Bytes2(hi)
  {
    assert v % 0x1_0000 == lo && v / 0x1_0000 == hi;
  }

  lemma Combine16(lo: u16, hi: u16)
    ensures BitOr(lo, hi as int * 0x1_0000) == hi as int * 0x1_0000 + lo
  {
    BitOrCommutes(lo, hi as int * 0x1_0000);
    PowersOfTwo();
    BitOrDisjoint(hi, lo, 16);
  }

  // The word a run of four bytes spells.
  function Spelled4(bs: seq<byte>): u32
    requires |bs| == 4
  {
    Word4(Word2(bs[0], bs[1]), Word2(bs[2], bs[3]))
  }

  lemma ErasedWord(v: u32)
    ensures Bytes4(v) == [0xFF, 0xFF, 0xFF, 0xFF] <==> v == 0xFFFF_FFFF
  {
    var b := Bytes4(v);
    assert |b| == 4 && v == b[0] as int + 256 * b[1] as int + 65536 * b[2] as int + 16777216 * b[3] as int;
  }

  lemma Spells4(v: u32)
    ensures |Bytes4(v)| == 4 && Spelled4(Bytes4(v)) == v
  {}

  /** A 32-bit word written in range reads back as itself, straddling pages or not. */
  lemma Word4RoundTrip(s: State, addr: u32, v: u32)
    requires s.Inv() && AllInRange(s, addr, 4)
    ensures var b := BytesRead(Run(s, Writes(addr, Bytes4(v))), addr, 4); Spelled4(b) == v
  {
    Spells4(v);
    BytesRoundTrip(s, addr, Bytes4(v));
  }

  lemma Word2RoundTrip(s: State, addr: u32, v: u16)
    requires s.Inv() && AllInRange(s, addr, 2)
    ensures var b := BytesRead(Run(s, Writes(addr, Bytes2(v))), addr, 2); Word2(b[0], b[1]) == v
  {
    BytesRoundTrip(s, addr, Bytes2(v));
    Combine8(v % 256, v / 256);
  }

  // ---- strings ----

  // A read string ends before the first 0x00 or erased 0xFF byte.
  function Terminated(bs: seq<byte>): (r: seq<byte>)
    ensures |r| <= |bs| && r == bs[..|r|]
    ensures forall i :: 0 <= i < |r| ==> r[i] != 0 && r[i] != 0xFF
    ensures |r| < |bs| ==> bs[|r|] == 0 || bs[|r|] == 0xFF
  {
    if bs == [] || bs[0] == 0 || bs[0] == 0xFF then [] else [bs[0]] + Terminated(bs[1..])
  }

  // The bytes a string write of at most n bytes puts down: the terminator if it fits.
  function Image(str: seq<byte>, n: nat): (r: seq<byte>)
    ensures r <= str + [0] && |r| == if |str| < n then |str| + 1 else n
  {
    if |str| + 1 < n then str + [0] else (str + [0])[..n]
  }

  lemma {:induction false} TerminatedEndsAt(bs: seq<byte>, k: nat)
    requires k <= |bs| && (forall i :: 0 <= i < k ==> bs[i] != 0 && bs[i] != 0xFF)
    requires k == |bs| || bs[k] == 0 || bs[k] == 0xFF
    ensures Terminated(bs) == bs[..k]
  {
    if k > 0 {
      TerminatedEndsAt(bs[1..], k - 1);
      assert bs[..k] == [bs[0]] + bs[1..][..k - 1];
    }
  }

  // No terminator among these characters.
  ghost predicate Plain(str: seq<byte>) { 0 !in str && 0xFF !in str }

  lemma PlainOneMore(str: seq<byte>, c: byte)
    requires Plain(str) && c != 0 && c != 0xFF
    ensures Plain(str + [c])
  {}

  // Reading byte by byte and stopping at the first terminator finds the string.
  lemma StopsAt(all: seq<byte>, got: seq<byte>, len: nat)
    requires |got| <= |all| && all[..|got|] == got && len <= |got| <= len + 1
    requires Plain(got[..len])
    requires if |got| == len then len == |all| else got[len] == 0 || got[len] == 0xFF
    ensures Terminated(all) == got[..len]
  {
    assert forall i :: 0 <= i < len ==> got[..len][i] == got[i] == all[..|got|][i] == all[i];
    if |got| > len { assert all[len] == all[..|got|][len]; }
    TerminatedEndsAt(all, len);
  }

  /** Where a byte-by-byte read of at most n characters stops, the string ends. */
  lemma StringEndsHere(s: State, addr: u32, n: nat, len: nat)
    requires s.Wf() && len <= n && Plain(BytesRead(s, addr, len))
    requires len < n ==> BytesRead(s, addr, len + 1)[len] in {0, 0xFF}
    ensures Terminated(BytesRead(s, addr, n)) == BytesRead(s, addr, len)
  {
    var got := if len < n then len + 1 else len;
    BytesReadPrefix(s, addr, got, n);
    BytesReadPrefix(s, addr, len, got);
    StopsAt(BytesRead(s, addr, n), BytesRead(s, addr, got), len);
  }

  // What a written string leads with, however much of it fits.
  lemma ImageLeads(str: seq<byte>, n: byte, got: seq<byte>)
    requires 0 !in str && |got| == n && |Image(str, n)| <= n && got[..|Image(str, n)|] == Image(str, n)
    ensures var k := if |str| < n then |str| else n;
            && got[..k] == str[..k] && (k == n || got[k] == 0)
            && forall i :: 0 <= i < k ==> got[i] == str[i] && got[i] in str[..k]
  {}

  lemma ImageComesBack(str: seq<byte>, n: byte, got: seq<byte>)
    requires 0 !in str && |got| == n && |Image(str, n)| <= n && got[..|Image(str, n)|] == Image(str, n)
    ensures var kept := str[..if |str| < n then |str| else n];
            Terminated(got) == kept <==> 0xFF !in kept
  {
    var k := if |str| < n then |str| else n;
    ImageLeads(str, n, got);
    if 0xFF !in str[..k] { TerminatedEndsAt(got, k); }
    if Terminated(got) == str[..k] { assert forall i :: 0 <= i < k ==> Terminated(got)[i] != 0xFF; }
  }

  // The string a bounded write followed by a bounded read brings back.
  function StringBack(s: State, addr: u32, str: seq<byte>, n: byte): seq<byte>
    requires s.Wf()
  {
    Terminated(BytesRead(Run(s, Writes(addr, Image(str, n))), addr, n))
  }

  /** Strings: writing str with limit n and reading with room for n characters gives back
      the first min(|str|, n) characters if and only if none of those is 0xFF. */
  lemma StringRoundTrip(s: State, addr: u32, str: seq<byte>, n: byte)
    requires s.Inv() && 0 !in str && AllInRange(s, addr, |Image(str, n)|)
    ensures var kept := str[..if |str| < n then |str| else n];
            StringBack(s, addr, str, n) == kept <==> 0xFF !in kept
  {
    var img := Image(str, n);
    var t := Run(s, Writes(addr, img));
    BytesRoundTrip(s, addr, img);
    BytesReadPrefix(t, addr, |img|, n);
    ImageComesBack(str, n, BytesRead(t, addr, n));
  }
}
