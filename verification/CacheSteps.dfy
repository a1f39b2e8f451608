/** One client operation: what it does to the flat array, which pages it programs, and
    what those programs are paid for with. */
module CacheSteps {
  import opened Words
  import opened Chip
  import opened DataFlash
  import opened CacheModel
  import opened CacheRefinement
  import opened FlatMemory

  datatype Op = ReadOp(addr: u32) | WriteOp(addr: u32, data: byte) | CheckOp | FlushOp

  function Step(s: State, op: Op): (r: State)
    requires s.Wf()
    ensures r.Wf() && r.tk == s.tk && |r.slots| == |s.slots|
  {
    match op
    case ReadOp(a) => Fill(s, PageOf(a))
    case WriteOp(a, d) => Write1(s, a, d)
    case CheckOp => Check(s)
    case FlushOp => Flush(s)
  }

  function FlatStep(m: seq<byte>, op: Op): (r: seq<byte>)
    ensures |r| == |m|
  {
    if op.WriteOp? then FlatWrite(m, op.addr, op.data) else m
  }

  /** Every operation keeps the cache invariant and does to the flat array what the same
      operation does to a flat array. */
  lemma StepRefinesFlatStep(s: State, op: Op)
    requires s.Inv()
    ensures Step(s, op).Inv()
    ensures Flat(Step(s, op)) == FlatStep(Flat(s), op)
  {
    match op
    case ReadOp(a) => ReadsFlat(s, a);
    case WriteOp(a, d) => WritesFlat(s, a, d);
    case CheckOp => ChecksFlat(s);
    case FlushOp => FlushesFlat(s);
  }

  // ---- programs and what pays for them ----

  // Program cycles the page has had plus the one a dirty slot still owes it.
  function Owed(s: State, p: u16): nat
    requires s.Wf() && TokenCheck(s.tk, p)
  {
    var i := Find(s.slots, p);
    s.mem.wear[s.tk.first + p] + (if i < |s.slots| && s.slots[i].dirty then 1 else 0)
  }

  /** From s to t page p shows the same, owes the same, and its flash copy is either
      untouched or a copy of what it showed in s. */
  ghost predicate Settled(s: State, t: State, p: u16) {
    && s.Inv() && t.Inv() && s.tk == t.tk && TokenCheck(s.tk, p)
    && PageView(t, p) == PageView(s, p)
    && Owed(t, p) == Owed(s, p)
    && (FlashPage(t.tk, t.mem, p) == FlashPage(s.tk, s.mem, p) || FlashPage(t.tk, t.mem, p) == PageView(s, p))
  }

  lemma AgingSettles(s: State, p: u16)
    requires s.Inv() && TokenCheck(s.tk, p)
    ensures Settled(s, s.(slots := Age(s.slots)), p)
  {
    AgingShowsNothing(s);
    SameTagsFindTheSame(s.slots, Age(s.slots), p);
  }

  lemma TouchingSettles(s: State, i: nat, p: u16)
    requires s.Inv() && TokenCheck(s.tk, p) && i < |s.slots|
    ensures Settled(s, Touched(s, i), p)
  {
    TouchingShowsNothing(s, i);
    SameTagsFindTheSame(s.slots, Touched(s, i).slots, p);
  }

  lemma CleaningSettles(s: State, i: nat, p: u16)
    requires s.Inv() && TokenCheck(s.tk, p) && i < |s.slots|
    ensures Settled(s, Cleaned(s, i), p)
  {
    CleaningShowsNothing(s, i);
    SameTagsFindTheSame(s.slots, Cleaned(s, i).slots, p);
    WriteBackEffect(s.tk, s.mem, s.slots[i]);
    if s.slots[i].page == p { FindsTheOne(s.slots, i); }
  }

  lemma LoadingSettles(s: State, i: nat, page: u16, p: u16)
    requires s.Inv() && TokenCheck(s.tk, p) && i < |s.slots| && !s.slots[i].dirty
    requires forall k :: 0 <= k < |s.slots| ==> s.slots[k].page != page
    ensures Settled(s, Loaded(s, i, page), p)
  {
    LoadingShowsNothing(s, i, page);
    var t, j := Loaded(s, i, page), Find(s.slots, p);
    if p == page {
      FindsTheOne(t.slots, i);
    } else if p == s.slots[i].page {
      FindsTheOne(s.slots, i);
      FindAbsent(t.slots, p, s.slots, i);
    } else if j < |s.slots| {
      assert t.slots[j] == s.slots[j];
      FindsTheOne(t.slots, j);
    }
  }

  lemma FillSettles(s: State, page: u16, p: u16)
    requires s.Inv() && TokenCheck(s.tk, p)
    ensures Settled(s, Fill(s, page), p)
  {
    FillInSteps(s, page);
    AgingSettles(s, p);
    var i, a := FillIndex(s, page), s.(slots := Age(s.slots));
    if a.slots[i].page == page {
      TouchingSettles(a, i, p);
    } else {
      MissMeansAbsent(s, page);
      CleaningSettles(a, i, p);
      LoadingSettles(Cleaned(a, i), i, page, p);
    }
  }

  lemma RewritingOwesOne(s: State, i: nat, buf: Contents, p: u16)
    requires s.Inv() && TokenCheck(s.tk, p) && i < |s.slots|
    ensures Rewritten(s, i, buf).Inv()
    ensures Owed(Rewritten(s, i, buf), p) <= Owed(s, p) + if s.slots[i].page == p then 1 else 0
  {}

  lemma WriteAccounts(s: State, addr: u32, data: byte, p: u16)
    requires s.Inv() && TokenCheck(s.tk, p)
    ensures var t := Write1(s, addr, data);
            && t.Inv() && t.tk == s.tk
            && (FlashPage(t.tk, t.mem, p) == FlashPage(s.tk, s.mem, p) || FlashPage(t.tk, t.mem, p) == PageView(s, p))
            && Owed(t, p) <= Owed(s, p)
               + if PageOf(addr) == p && FlatWrite(Flat(s), addr, data) != Flat(s) then 1 else 0
  {
    var page, off := PageOf(addr), OffsetOf(addr);
    var f, i := Fill(s, page), FillIndex(s, page);
    FillSettles(s, page, p);
    FillShowsNothing(s, page);
    SameViewSameFlat(s, f);
    WritesFlat(s, addr, data);
    var was := f.slots[i].buf;
    if was[off] != data {
      RewritingOwesOne(f, i, was[off := data], p);
      if page == p {
        IndexFields(s, addr);
        FillDeliversPage(s, page);
        assert Flat(s)[FlatIndex(addr)] == was[off];
      }
    }
  }

  lemma {:induction false} FlushSettles(s: State, p: u16)
    requires s.Inv() && TokenCheck(s.tk, p)
    ensures Settled(s, Flush(s), p)
    decreases DirtyCount(s.slots)
  {
    CheckCleansOne(s);
    var i := FirstDirty(s.slots);
    if i < |s.slots| {
      CleaningSettles(s, i, p);
      FlushSettles(Check(s), p);
    }
  }

  /** One operation on page p: its flash copy stays or becomes what the page showed before
      the operation, and only a write that changes a byte of p adds to what is owed. */
  lemma StepAccounts(s: State, op: Op, p: u16)
    requires s.Inv() && TokenCheck(s.tk, p)
    ensures var t := Step(s, op);
            && t.Inv() && t.tk == s.tk
            && (FlashPage(t.tk, t.mem, p) == FlashPage(s.tk, s.mem, p) || FlashPage(t.tk, t.mem, p) == PageView(s, p))
            && Owed(t, p) <= Owed(s, p)
               + if op.WriteOp? && PageOf(op.addr) == p && FlatStep(Flat(s), op) != Flat(s) then 1 else 0
  {
    match op
    case ReadOp(a) => FillSettles(s, PageOf(a), p);
    case WriteOp(a, d) => WriteAccounts(s, a, d, p);
    case CheckOp =>
      if FirstDirty(s.slots) < |s.slots| { CleaningSettles(s, FirstDirty(s.slots), p); }
    case FlushOp => FlushSettles(s, p);
  }

  // ---- the rest of the chip ----

  // Page q of the chip kept its bytes and its wear.
  ghost predicate SamePage(m: Memory, n: Memory, q: nat) {
    m.Valid() && n.Valid() && q < FLASH_PAGES && m.main[q] == n.main[q] && m.wear[q] == n.wear[q]
  }

  lemma {:induction false} FlushStaysInside(s: State, q: nat)
    requires s.Wf() && q < FLASH_PAGES && !(s.tk.first <= q < s.tk.first + s.tk.size)
    ensures SamePage(s.mem, Flush(s).mem, q)
    decreases DirtyCount(s.slots)
  {
    CheckCleansOne(s);
    var i := FirstDirty(s.slots);
    if i < |s.slots| {
      WriteBackEffect(s.tk, s.mem, s.slots[i]);
      FlushStaysInside(Check(s), q);
    }
  }

  lemma FillStaysInside(s: State, page: u16, q: nat)
    requires s.Inv() && q < FLASH_PAGES && !(s.tk.first <= q < s.tk.first + s.tk.size)
    ensures Fill(s, page).Wf() && SamePage(s.mem, Fill(s, page).mem, q)
  {}

  /** No operation touches a chip page outside the token's share. */
  lemma StepStaysInside(s: State, op: Op, q: nat)
    requires s.Inv() && q < FLASH_PAGES && !(s.tk.first <= q < s.tk.first + s.tk.size)
    ensures SamePage(s.mem, Step(s, op).mem, q)
  {
    match op
    case ReadOp(a) => FillStaysInside(s, PageOf(a), q);
    case WriteOp(a, d) =>
      FillStaysInside(s, PageOf(a), q);
      assert Write1(s, a, d).mem == Fill(s, PageOf(a)).mem;
    case CheckOp =>
      if FirstDirty(s.slots) < |s.slots| { WriteBackEffect(s.tk, s.mem, s.slots[FirstDirty(s.slots)]); }
    case FlushOp => FlushStaysInside(s, q);
  }

  // ---- how many slots are dirty ----

  lemma {:induction false} DirtyAtMostAll(slots: seq<Slot>)
    ensures DirtyCount(slots) <= |slots|
  {
    if slots != [] { DirtyAtMostAll(slots[1..]); }
  }

  lemma {:induction false} AgingCounts(slots: seq<Slot>)
    ensures DirtyCount(Age(slots)) == DirtyCount(slots)
  {
    if slots != [] {
      assert Age(slots)[1..] == Age(slots[1..]);
      AgingCounts(slots[1..]);
    }
  }

  lemma FillCounts(s: State, page: u16)
    requires s.Wf()
    ensures DirtyCount(Fill(s, page).slots) <= DirtyCount(s.slots)
  {
    var aged, i := Age(s.slots), FillIndex(s, page);
    AgingCounts(s.slots);
    ReplacingCounts(aged, i, Fill(s, page).slots[i]);
  }

  // A write that changes the byte it finds, in range or not.
  predicate Changes(s: State, op: Op)
    requires s.Wf()
  {
    op.WriteOp? && Read1(s, op.addr) != op.data
  }

  lemma WriteCounts(s: State, addr: u32, data: byte)
    requires s.Wf()
    ensures DirtyCount(Write1(s, addr, data).slots) <= DirtyCount(s.slots) + if Read1(s, addr) != data then 1 else 0
  {
    var f, i := Fill(s, PageOf(addr)), FillIndex(s, PageOf(addr));
    FillCounts(s, PageOf(addr));
    if Read1(s, addr) != data {
      ReplacingCounts(f.slots, i, f.slots[i].(dirty := true, buf := f.slots[i].buf[OffsetOf(addr) := data]));
    }
  }

  lemma {:induction false} FlushCounts(s: State)
    requires s.Wf()
    ensures DirtyCount(Flush(s).slots) == 0
    decreases DirtyCount(s.slots)
  {
    CheckCleansOne(s);
    if FirstDirty(s.slots) < |s.slots| { FlushCounts(Check(s)); }
  }

  /** Only a changing write can make one more slot dirty. */
  lemma StepCounts(s: State, op: Op)
    requires s.Wf()
    ensures DirtyCount(Step(s, op).slots) <= DirtyCount(s.slots) + if Changes(s, op) then 1 else 0
  {
    match op
    case ReadOp(a) => FillCounts(s, PageOf(a));
    case WriteOp(a, d) => WriteCounts(s, a, d);
    case CheckOp => CheckCleansOne(s);
    case FlushOp => FlushCounts(s);
  }
}
