/** The cache keeps its invariant and stands for a plain array of pages: what one
    operation does to that array, to the flash, and to the wear of each page. */
module CacheRefinement {
  import opened Words
  import opened Chip
  import opened DataFlash
  import opened CacheModel

  /** The bytes a client sees on a page: the slot that holds it, else the flash. */
  function PageView(s: State, page: u16): Contents
    requires s.Wf() && TokenCheck(s.tk, page)
  {
    var i := Find(s.slots, page);
    if i < |s.slots| then s.slots[i].buf else FlashPage(s.tk, s.mem, page)
  }

  lemma FindsTheOne(slots: seq<Slot>, i: nat)
    requires DistinctTags(slots) && i < |slots| && slots[i].page != NO_PAGE
    ensures Find(slots, slots[i].page) == i
  {}

  lemma FreshIsUsable(tk: Token, n: nat, m: Memory)
    requires tk.Fits() && m.Valid() && n >= 1
    ensures Init(tk, n, m).Inv()
    ensures forall p: u16 :: TokenCheck(tk, p) ==> PageView(Init(tk, n, m), p) == FlashPage(tk, m, p)
  {}

  // ---- one page written back ----

  /** Writing a slot back puts its 512 bytes on its page and touches no other page. A
      sentinel or out-of-range tag leaves the chip exactly as it was. */
  lemma WriteBackEffect(tk: Token, m: Memory, x: Slot)
    requires tk.Fits() && m.Valid()
    ensures !TokenCheck(tk, x.page) ==> WriteBack(tk, m, x) == m
    ensures TokenCheck(tk, x.page) ==> FlashPage(tk, WriteBack(tk, m, x), x.page) == x.buf
    ensures TokenCheck(tk, x.page) ==>
              WriteBack(tk, m, x).wear == m.wear[tk.first + x.page := m.wear[tk.first + x.page] + 1]
    ensures TokenCheck(tk, x.page) ==> var r := WriteBack(tk, m, x);
              && r.buf1 == m.buf1 && r.buf2 == x.buf + m.buf2[512..] && r.main[tk.first + x.page] == r.buf2
    ensures forall q :: 0 <= q < FLASH_PAGES && (TokenCheck(tk, x.page) ==> q != tk.first + x.page) ==>
              WriteBack(tk, m, x).main[q] == m.main[q]
  {}

  /** The reordered eviction - park the victim in buffer 2, read the new page, then
      program - ends in the same state as programming first, on every state. */
  lemma EvictionOrderIsIrrelevant(s: State, page: u16)
    requires s.Wf()
    ensures Fill(s, page) == FillInPlainOrder(s, page)
  {}

  // ---- the small steps a request is made of ----

  // The slot at i written back if it needs it.
  function Cleaned(s: State, i: nat): State
    requires s.Wf() && i < |s.slots|
  {
    if s.slots[i].dirty
    then s.(slots := s.slots[i := s.slots[i].(dirty := false)], mem := WriteBack(s.tk, s.mem, s.slots[i]))
    else s
  }

  // The slot at i given over to a page, read from flash.
  function Loaded(s: State, i: nat, page: u16): State
    requires s.Wf() && i < |s.slots|
  {
    s.(slots := s.slots[i := Slot(page, false, 0, PageInto(s.tk, s.mem, page, 0, EE_PAGE_SIZE, s.slots[i].buf))])
  }

  function Touched(s: State, i: nat): State
    requires i < |s.slots|
  {
    s.(slots := s.slots[i := s.slots[i].(count := 0)])
  }

  lemma FillInSteps(s: State, page: u16)
    requires s.Wf()
    ensures var i, a := FillIndex(s, page), s.(slots := Age(s.slots));
            Fill(s, page) == if a.slots[i].page == page then Touched(a, i) else Loaded(Cleaned(a, i), i, page)
  {}

  // Same tags, slot by slot.
  ghost predicate SameTags(a: seq<Slot>, b: seq<Slot>) {
    |a| == |b| && forall i :: 0 <= i < |a| ==> a[i].page == b[i].page
  }

  lemma SameTagsFindTheSame(a: seq<Slot>, b: seq<Slot>, page: u16)
    requires SameTags(a, b)
    ensures Find(a, page) == Find(b, page)
    ensures DistinctTags(a) ==> DistinctTags(b)
  {}

  // Two states agree on everything a client can see.
  ghost predicate SameView(s: State, t: State) {
    && s.Wf() && t.Wf() && s.tk == t.tk
    && forall p: u16 :: TokenCheck(s.tk, p) ==> PageView(t, p) == PageView(s, p)
  }

  lemma AgingShowsNothing(s: State)
    requires s.Inv()
    ensures s.(slots := Age(s.slots)).Inv() && SameView(s, s.(slots := Age(s.slots)))
  {
    forall p: u16 ensures Find(Age(s.slots), p) == Find(s.slots, p) {
      SameTagsFindTheSame(s.slots, Age(s.slots), p);
    }
    SameTagsFindTheSame(s.slots, Age(s.slots), 0);
  }

  lemma TouchingShowsNothing(s: State, i: nat)
    requires s.Inv() && i < |s.slots|
    ensures Touched(s, i).Inv() && SameView(s, Touched(s, i))
  {
    forall p: u16 ensures Find(Touched(s, i).slots, p) == Find(s.slots, p) {
      SameTagsFindTheSame(s.slots, Touched(s, i).slots, p);
    }
    SameTagsFindTheSame(s.slots, Touched(s, i).slots, 0);
  }

  lemma CleaningKeepsInvariant(s: State, i: nat)
    requires s.Inv() && i < |s.slots|
    ensures Cleaned(s, i).Inv()
  {}

  /** Writing any slot back, dirty in-range, out-of-range or sentinel, shows nothing. */
  lemma CleaningShowsNothing(s: State, i: nat)
    requires s.Inv() && i < |s.slots|
    ensures Cleaned(s, i).Inv() && SameView(s, Cleaned(s, i))
  {
    CleaningKeepsInvariant(s, i);
    var x, t := s.slots[i], Cleaned(s, i);
    WriteBackEffect(s.tk, s.mem, x);
    forall p: u16 | TokenCheck(s.tk, p) ensures PageView(t, p) == PageView(s, p) {
      SameTagsFindTheSame(s.slots, t.slots, p);
      if p == x.page { FindsTheOne(s.slots, i); }
    }
  }

  lemma LoadingKeepsInvariant(s: State, i: nat, page: u16)
    requires s.Inv() && i < |s.slots|
    requires forall k :: 0 <= k < |s.slots| ==> s.slots[k].page != page
    ensures Loaded(s, i, page).Inv()
  {}

  /** Reusing a clean slot for a page in no slot shows nothing. */
  lemma LoadingShowsNothing(s: State, i: nat, page: u16)
    requires s.Inv() && i < |s.slots| && !s.slots[i].dirty
    requires forall k :: 0 <= k < |s.slots| ==> s.slots[k].page != page
    ensures Loaded(s, i, page).Inv() && SameView(s, Loaded(s, i, page))
  {
    LoadingKeepsInvariant(s, i, page);
    var x, t := s.slots[i], Loaded(s, i, page);
    forall p: u16 | TokenCheck(s.tk, p) ensures PageView(t, p) == PageView(s, p) {
      var j := Find(s.slots, p);
      if p == page {
        FindsTheOne(t.slots, i);
        assert j == |s.slots|;
      } else if p == x.page {
        FindsTheOne(s.slots, i);
        FindAbsent(t.slots, p, s.slots, i);
      } else if j < |s.slots| {
        assert t.slots[j] == s.slots[j];
        FindsTheOne(t.slots, j);
      }
    }
  }

  // Once the one slot with tag p is retagged, p is in no slot.
  lemma FindAbsent(slots: seq<Slot>, p: u16, was: seq<Slot>, i: nat)
    requires |slots| == |was| && i < |was| && p != NO_PAGE && DistinctTags(was) && was[i].page == p
    requires slots[i].page != p && forall k :: 0 <= k < |was| && k != i ==> slots[k].page == was[k].page
    ensures Find(slots, p) == |slots|
  {}

  // ---- a request for a page ----

  // A miss means no slot carries the tag, and the victim is the oldest.
  lemma MissMeansAbsent(s: State, page: u16)
    requires s.Wf() && Age(s.slots)[FillIndex(s, page)].page != page
    ensures FillIndex(s, page) == Oldest(Age(s.slots))
    ensures forall i :: 0 <= i < |s.slots| ==> s.slots[i].page != page
  {}

  /** No request, in range or not, changes what any in-range page holds, whatever it evicts. */
  lemma FillShowsNothing(s: State, page: u16)
    requires s.Inv()
    ensures Fill(s, page).Inv() && SameView(s, Fill(s, page))
    ensures |Fill(s, page).slots| == |s.slots| && Fill(s, page).slots[FillIndex(s, page)].page == page
  {
    FillInSteps(s, page);
    AgingShowsNothing(s);
    var i, a := FillIndex(s, page), s.(slots := Age(s.slots));
    if a.slots[i].page == page {
      TouchingShowsNothing(a, i);
    } else {
      MissMeansAbsent(s, page);
      CleaningShowsNothing(a, i);
      LoadingShowsNothing(Cleaned(a, i), i, page);
    }
  }

  // The slot handed out for an in-range page holds what the client sees on that page.
  lemma FillDeliversPage(s: State, page: u16)
    requires s.Inv() && TokenCheck(s.tk, page)
    ensures Fill(s, page).Inv() && SameView(s, Fill(s, page))
    ensures FillIndex(s, page) < |Fill(s, page).slots|
    ensures Fill(s, page).slots[FillIndex(s, page)].buf == PageView(s, page)
  {
    FillShowsNothing(s, page);
    FindsTheOne(Fill(s, page).slots, FillIndex(s, page));
  }
}
