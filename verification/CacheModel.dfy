/** The page cache as a function of its state: slots in memory over pages in flash.
    The class in Eeprom.dfy is proved to do exactly this. */
module CacheModel {
  import opened Words
  import opened Chip
  import opened DataFlash

  const EE_PAGE_SIZE := 512
  const PAGE_COUNT_MAX := 32767
  const NO_PAGE: u16 := 0xFFFF   // the tag memset leaves in a fresh slot

  type Contents = s: seq<byte> | |s| == EE_PAGE_SIZE witness seq(EE_PAGE_SIZE, _ => 0xFF)

  datatype Slot = Slot(page: u16, dirty: bool, count: nat, buf: Contents)

  datatype State = State(tk: Token, slots: seq<Slot>, mem: Memory)
  {
    // A usable machine: the token's pages are on the chip and there is a slot.
    ghost predicate Wf() {
      tk.Fits() && mem.Valid() && |slots| >= 1 && forall i :: 0 <= i < |slots| ==> slots[i].count <= PAGE_COUNT_MAX
    }

    /** The cache invariant: apart from the sentinel no tag occurs twice, and a clean
        slot of an in-range page holds what the flash holds. */
    ghost predicate Inv() {
      && Wf()
      && DistinctTags(slots)
      && forall i :: 0 <= i < |slots| && !slots[i].dirty && TokenCheck(tk, slots[i].page) ==>
           slots[i].buf == FlashPage(tk, mem, slots[i].page)
    }
  }

  ghost predicate DistinctTags(slots: seq<Slot>) {
    forall i, j :: 0 <= i < j < |slots| && slots[i].page == slots[j].page ==> slots[i].page == NO_PAGE
  }

  // The 512 bytes of a flash page the cache uses.
  function FlashPage(tk: Token, m: Memory, page: u16): Contents
    requires tk.Fits() && m.Valid() && TokenCheck(tk, page)
  {
    m.main[tk.first + page][..EE_PAGE_SIZE]
  }

  function AgeSlot(x: Slot): Slot {
    if x.count < PAGE_COUNT_MAX then x.(count := x.count + 1) else x
  }

  function Age(slots: seq<Slot>): (r: seq<Slot>)
    ensures |r| == |slots| && forall i :: 0 <= i < |r| ==> r[i] == AgeSlot(slots[i])
  {
    seq(|slots|, i requires 0 <= i < |slots| => AgeSlot(slots[i]))
  }

  // Index of the first slot with this tag, or the number of slots.
  function Find(slots: seq<Slot>, page: u16): (r: nat)
    ensures r <= |slots|
    ensures r < |slots| ==> slots[r].page == page
    ensures forall i :: 0 <= i < r ==> slots[i].page != page
  {
    if slots == [] || slots[0].page == page then 0 else 1 + Find(slots[1..], page)
  }

  // Index of the first slot whose count no other exceeds.
  function Oldest(slots: seq<Slot>): (r: nat)
    requires |slots| >= 1
    ensures r < |slots|
    ensures forall i :: 0 <= i < |slots| ==> slots[i].count <= slots[r].count
    ensures forall i :: 0 <= i < r ==> slots[i].count < slots[r].count
  {
    var n := |slots| - 1;
    if n == 0 then 0
    else
      var o := Oldest(slots[..n]);
      if slots[n].count > slots[o].count then n else o
  }

  function FillIndex(s: State, page: u16): (r: nat)
    requires |s.slots| >= 1
    ensures r < |s.slots|
  {
    var aged := Age(s.slots);
    if Find(aged, page) < |aged| then Find(aged, page) else Oldest(aged)
  }

  // The memories after parking a dirty victim in buffer 2 and programming it.
  function WriteBack(tk: Token, m: Memory, x: Slot): (r: Memory)
    requires tk.Fits() && m.Valid()
    ensures r.Valid()
  {
    Programmed(tk, BufferWritten(tk, m, x.page, 0, Buffer2, x.buf), x.page, Buffer2)
  }

  // The slot at i evicted, a dirty one through buffer 2 with the read in between, and
  // given over to the page.
  function Replaced(s: State, i: nat, page: u16): (r: State)
    requires s.Wf() && i < |s.slots|
    ensures r.Wf() && r.tk == s.tk && |r.slots| == |s.slots|
  {
    var x := s.slots[i];
    if !x.dirty then
      s.(slots := s.slots[i := Slot(page, false, 0, PageInto(s.tk, s.mem, page, 0, EE_PAGE_SIZE, x.buf))])
    else
      var parked := BufferWritten(s.tk, s.mem, x.page, 0, Buffer2, x.buf);
      s.(slots := s.slots[i := Slot(page, false, 0, PageInto(s.tk, parked, page, 0, EE_PAGE_SIZE, x.buf))],
         mem := Programmed(s.tk, parked, x.page, Buffer2))
  }

  /** What a request for a page does: age everyone; on a hit reset that slot's age; on a
      miss evict the oldest slot. */
  function Fill(s: State, page: u16): (r: State)
    requires s.Wf()
    ensures r.Wf() && r.tk == s.tk && |r.slots| == |s.slots|
  {
    var aged := Age(s.slots);
    var i := FillIndex(s, page);
    if aged[i].page == page then s.(slots := aged[i := aged[i].(count := 0)])
    else Replaced(s.(slots := aged), i, page)
  }

  // The plain order the reordered one stands for: program the victim, then read.
  function FillInPlainOrder(s: State, page: u16): State
    requires s.Wf()
  {
    var aged := Age(s.slots);
    var i := FillIndex(s, page);
    if aged[i].page == page then s.(slots := aged[i := aged[i].(count := 0)])
    else
      var m := if aged[i].dirty then WriteBack(s.tk, s.mem, aged[i]) else s.mem;
      s.(slots := aged[i := Slot(page, false, 0, PageInto(s.tk, m, page, 0, EE_PAGE_SIZE, aged[i].buf))], mem := m)
  }

  // ---- byte access ----

  function PageOf(addr: u32): u16 { addr / 512 % 0x1_0000 }
  function OffsetOf(addr: u32): nat { addr % 512 }

  function Read1(s: State, addr: u32): byte
    requires s.Wf()
  {
    Fill(s, PageOf(addr)).slots[FillIndex(s, PageOf(addr))].buf[OffsetOf(addr)]
  }

  function Write1(s: State, addr: u32, data: byte): (r: State)
    requires s.Wf()
    ensures r.Wf() && r.tk == s.tk && |r.slots| == |s.slots|
  {
    var f := Fill(s, PageOf(addr));
    var i := FillIndex(s, PageOf(addr));
    if f.slots[i].buf[OffsetOf(addr)] == data then f
    else f.(slots := f.slots[i := f.slots[i].(dirty := true, buf := f.slots[i].buf[OffsetOf(addr) := data])])
  }

  // ---- write-back ----

  function FirstDirty(slots: seq<Slot>): (r: nat)
    ensures r <= |slots|
    ensures r < |slots| ==> slots[r].dirty
    ensures forall i :: 0 <= i < r ==> !slots[i].dirty
  {
    if slots == [] || slots[0].dirty then 0 else 1 + FirstDirty(slots[1..])
  }

  function DirtyCount(slots: seq<Slot>): nat {
    if slots == [] then 0 else DirtyBit(slots[0]) + DirtyCount(slots[1..])
  }

  function Check(s: State): (r: State)
    requires s.Wf()
    ensures r.Wf() && r.tk == s.tk && |r.slots| == |s.slots|
  {
    var i := FirstDirty(s.slots);
    if i == |s.slots| then s
    else s.(slots := s.slots[i := s.slots[i].(dirty := false)], mem := WriteBack(s.tk, s.mem, s.slots[i]))
  }

  function DirtyBit(x: Slot): nat { if x.dirty then 1 else 0 }

  lemma {:induction false} ReplacingCounts(slots: seq<Slot>, i: nat, x: Slot)
    requires i < |slots|
    ensures DirtyCount(slots[i := x]) == DirtyCount(slots) - DirtyBit(slots[i]) + DirtyBit(x)
  {
    var c := slots[i := x];
    if i == 0 {
      assert c[1..] == slots[1..];
    } else {
      ReplacingCounts(slots[1..], i - 1, x);
      assert c[1..] == slots[1..][i - 1 := x];
    }
  }

  lemma {:induction false} NoDirtyCountsZero(slots: seq<Slot>)
    ensures DirtyCount(slots) == 0 <==> FirstDirty(slots) == |slots|
  {
    if slots != [] { NoDirtyCountsZero(slots[1..]); }
  }

  /** One background check cleans exactly one slot as long as there is a dirty one. */
  lemma CheckCleansOne(s: State)
    requires s.Wf()
    ensures DirtyCount(Check(s).slots) == if DirtyCount(s.slots) == 0 then 0 else DirtyCount(s.slots) - 1
    ensures DirtyCount(s.slots) == 0 <==> FirstDirty(s.slots) == |s.slots|
  {
    NoDirtyCountsZero(s.slots);
    var i := FirstDirty(s.slots);
    if i < |s.slots| { ReplacingCounts(s.slots, i, s.slots[i].(dirty := false)); }
  }

  function Flush(s: State): (r: State)
    requires s.Wf()
    ensures r.Wf() && r.tk == s.tk && |r.slots| == |s.slots|
    decreases DirtyCount(s.slots)
  {
    if FirstDirty(s.slots) == |s.slots| then s
    else CheckCleansOne(s); Flush(Check(s))
  }

  // ---- start-up ----

  function FreshSlot(): Slot { Slot(NO_PAGE, true, PAGE_COUNT_MAX, seq(EE_PAGE_SIZE, _ => 0xFF)) }

  function Init(tk: Token, n: nat, m: Memory): State {
    State(tk, seq(n, _ => FreshSlot()), m)
  }
}
