/** The flat byte array the cache stands for, and what each operation does to it. */
module FlatMemory {
  import opened Words
  import Chip
  import opened DataFlash
  import opened CacheModel
  import opened CacheRefinement

  // Page numbers are cut to 16 bits on the way in, so addresses repeat after 2^25 bytes.
  const ADDRESS_SPACE := 0x200_0000

  function FlatIndex(addr: u32): nat { addr % ADDRESS_SPACE }

  // All bytes of the token's pages as a client sees them.
  function Flat(s: State): (r: seq<byte>)
    requires s.Wf()
    ensures |r| == s.tk.size * EE_PAGE_SIZE
  {
    seq(s.tk.size * EE_PAGE_SIZE, k requires 0 <= k < s.tk.size * EE_PAGE_SIZE =>
      PageView(s, k / EE_PAGE_SIZE)[k % EE_PAGE_SIZE])
  }

  lemma SplitAddress(addr: u32)
    ensures FlatIndex(addr) == PageOf(addr) * EE_PAGE_SIZE + OffsetOf(addr)
  {}

  lemma PageAndOffset(p: nat, i: nat)
    requires i < EE_PAGE_SIZE
    ensures (p * EE_PAGE_SIZE + i) / EE_PAGE_SIZE == p && (p * EE_PAGE_SIZE + i) % EE_PAGE_SIZE == i
  {}

  // What an address is worth to the flat array: in range exactly below its length.
  lemma IndexFields(s: State, addr: u32)
    requires s.Wf()
    ensures FlatIndex(addr) / EE_PAGE_SIZE == PageOf(addr) && FlatIndex(addr) % EE_PAGE_SIZE == OffsetOf(addr)
    ensures FlatIndex(addr) < |Flat(s)| <==> TokenCheck(s.tk, PageOf(addr))
  {
    SplitAddress(addr);
    PageAndOffset(PageOf(addr), OffsetOf(addr));
  }

  /** Two addresses name the same byte exactly when they agree modulo 2^25. */
  lemma AliasesExactly(a: u32, b: u32)
    ensures PageOf(a) == PageOf(b) && OffsetOf(a) == OffsetOf(b) <==> a % 0x200_0000 == b % 0x200_0000
  {
    SplitAddress(a);
    SplitAddress(b);
    PageAndOffset(PageOf(a), OffsetOf(a));
    PageAndOffset(PageOf(b), OffsetOf(b));
  }

  lemma SameViewSameFlat(s: State, t: State)
    requires SameView(s, t)
    ensures Flat(s) == Flat(t)
  {}

  /** A read at an in-range address returns the flat array's byte; no read, in range or
      not, changes the array. */
  lemma ReadsFlat(s: State, addr: u32)
    requires s.Inv()
    ensures Fill(s, PageOf(addr)).Inv() && Flat(Fill(s, PageOf(addr))) == Flat(s)
    ensures FlatIndex(addr) < |Flat(s)| ==> Read1(s, addr) == Flat(s)[FlatIndex(addr)]
  {
    FillShowsNothing(s, PageOf(addr));
    SameViewSameFlat(s, Fill(s, PageOf(addr)));
    IndexFields(s, addr);
    if FlatIndex(addr) < |Flat(s)| { FillDeliversPage(s, PageOf(addr)); }
  }

  // The change a client asks for.
  function FlatWrite(m: seq<byte>, addr: u32, data: byte): (r: seq<byte>)
    ensures |r| == |m|
  {
    if FlatIndex(addr) < |m| then m[FlatIndex(addr) := data] else m
  }

  // A slot's bytes replaced and marked dirty.
  function Rewritten(s: State, i: nat, buf: Contents): State
    requires i < |s.slots|
  {
    s.(slots := s.slots[i := s.slots[i].(dirty := true, buf := buf)])
  }

  lemma RewritingOnePage(s: State, i: nat, buf: Contents)
    requires s.Inv() && i < |s.slots|
    ensures Rewritten(s, i, buf).Inv()
    ensures forall p: u16 :: TokenCheck(s.tk, p) ==>
              PageView(Rewritten(s, i, buf), p) == if p == s.slots[i].page then buf else PageView(s, p)
  {
    var t := Rewritten(s, i, buf);
    SameTagsFindTheSame(s.slots, t.slots, 0);
    forall p: u16 | TokenCheck(s.tk, p)
      ensures PageView(t, p) == if p == s.slots[i].page then buf else PageView(s, p)
    {
      SameTagsFindTheSame(s.slots, t.slots, p);
      if p == s.slots[i].page { FindsTheOne(s.slots, i); }
    }
  }

  lemma PatchOnePage(s: State, t: State, addr: u32, data: byte)
    requires s.Wf() && t.Wf() && s.tk == t.tk
    requires forall p: u16 :: TokenCheck(s.tk, p) ==>
               PageView(t, p) == if p == PageOf(addr) then PageView(s, p)[OffsetOf(addr) := data] else PageView(s, p)
    ensures Flat(t) == FlatWrite(Flat(s), addr, data)
  {
    IndexFields(s, addr);
  }

  /** A write changes exactly the addressed byte of the flat array, and nothing at all
      when its page is out of range. */
  lemma WritesFlat(s: State, addr: u32, data: byte)
    requires s.Inv()
    ensures Write1(s, addr, data).Inv() && Write1(s, addr, data).tk == s.tk
    ensures Flat(Write1(s, addr, data)) == FlatWrite(Flat(s), addr, data)
  {
    var page, off := PageOf(addr), OffsetOf(addr);
    var f, i := Fill(s, page), FillIndex(s, page);
    FillShowsNothing(s, page);
    SameViewSameFlat(s, f);
    IndexFields(s, addr);
    var was := f.slots[i].buf;
    if TokenCheck(s.tk, page) { FindsTheOne(f.slots, i); }
    if was[off] != data {
      var t := Rewritten(f, i, was[off := data]);
      RewritingOnePage(f, i, was[off := data]);
      PatchOnePage(f, t, addr, data);
    } else if TokenCheck(s.tk, page) {
      assert Flat(f)[FlatIndex(addr)] == data;
    }
  }

  lemma ChecksFlat(s: State)
    requires s.Inv()
    ensures Check(s).Inv() && Flat(Check(s)) == Flat(s)
  {
    var i := FirstDirty(s.slots);
    if i < |s.slots| {
      CleaningShowsNothing(s, i);
      SameViewSameFlat(s, Check(s));
    }
  }

  // The bytes of the token's pages on the chip.
  function FlashBytes(tk: Token, m: Chip.Memory): (r: seq<byte>)
    requires tk.Fits() && m.Valid()
    ensures |r| == tk.size * EE_PAGE_SIZE
  {
    seq(tk.size * EE_PAGE_SIZE, k requires 0 <= k < tk.size * EE_PAGE_SIZE =>
      FlashPage(tk, m, k / EE_PAGE_SIZE)[k % EE_PAGE_SIZE])
  }

  /** Flushing terminates with no slot dirty, the array unchanged, and the array's every
      byte in flash. */
  lemma {:induction false} FlushesFlat(s: State)
    requires s.Inv()
    ensures Flush(s).Inv() && Flush(s).tk == s.tk && Flat(Flush(s)) == Flat(s)
    ensures DirtyCount(Flush(s).slots) == 0
    ensures FlashBytes(s.tk, Flush(s).mem) == Flat(s)
    decreases DirtyCount(s.slots)
  {
    CheckCleansOne(s);
    if FirstDirty(s.slots) < |s.slots| {
      ChecksFlat(s);
      FlushesFlat(Check(s));
    }
  }

  lemma FreshFlat(tk: Token, n: nat, m: Chip.Memory)
    requires tk.Fits() && m.Valid() && n >= 1
    ensures Init(tk, n, m).Inv() && Flat(Init(tk, n, m)) == FlashBytes(tk, m)
  {}
}
