/** The ages really make the cache least-recently-used: which pages are resident after a
    run depends only on the order in which pages were requested. */
module CacheLru {
  import opened Words
  import opened Chip
  import opened DataFlash
  import opened CacheModel
  import opened CacheRefinement
  import opened FlatMemory
  import opened CacheSteps
  import opened CacheRuns

  /** An age below the maximum is the number of requests since the slot's page was last
      requested; a saturated one says it was not among the last 32767. */
  ghost predicate AgesCountRequests(slots: seq<Slot>, h: seq<u16>) {
    && (forall i :: 0 <= i < |slots| && slots[i].count < 32767 ==> LastAt(h, slots[i].page, slots[i].count))
    && (forall i :: 0 <= i < |slots| && slots[i].count >= 32767 && slots[i].page != 0xFFFF ==>
          NotAmongLast(h, slots[i].page, 32767))
  }

  // Page p was requested exactly k requests ago and not since.
  ghost predicate LastAt(h: seq<u16>, p: u16, k: nat) {
    k < |h| && h[|h| - 1 - k] == p && NotAmongLast(h, p, k)
  }

  ghost predicate NotAmongLast(h: seq<u16>, p: u16, k: nat) {
    forall m :: 0 <= m < |h| && |h| - k <= m ==> h[m] != p
  }

  // Of several slots with one tag only the first was ever handed out.
  ghost predicate FirstTagOnly(slots: seq<Slot>) {
    forall i, j :: 0 <= i < j < |slots| && slots[i].page == slots[j].page ==>
      slots[i].page == 0xFFFF && slots[j].count == 32767
  }

  // Everything requested after a resident page was last requested is resident and younger.
  ghost predicate YoungerAreResident(slots: seq<Slot>, h: seq<u16>) {
    forall i, m :: 0 <= i < |slots| && slots[i].count < 32767 && |h| - slots[i].count <= m < |h| && 0 <= m ==>
      YoungerSlot(slots, h[m], slots[i].count)
  }

  ghost predicate YoungerSlot(slots: seq<Slot>, p: u16, count: nat) {
    exists j :: 0 <= j < |slots| && slots[j].page == p && slots[j].count < count
  }

  ghost predicate Lru(slots: seq<Slot>, h: seq<u16>) {
    && (forall i :: 0 <= i < |slots| ==> slots[i].count <= 32767)
    && AgesCountRequests(slots, h) && FirstTagOnly(slots) && YoungerAreResident(slots, h)
  }

  // ---- one request ----

  // The slots after page q was requested and given slot i.
  ghost predicate Served(slots: seq<Slot>, t: seq<Slot>, q: u16, i: nat) {
    && |t| == |slots| && i < |slots|
    && t[i].page == q && t[i].count == 0
    && (forall k :: 0 <= k < |slots| && k != i ==> t[k] == AgeSlot(slots[k]))
    && (if Find(slots, q) < |slots| then i == Find(slots, q)
        else forall k :: 0 <= k < |slots| ==> AgeSlot(slots[k]).count <= AgeSlot(slots[i]).count)
  }

  lemma FillServes(s: State, q: u16)
    requires s.Inv()
    ensures Served(s.slots, Fill(s, q).slots, q, FillIndex(s, q))
  {
    FillShowsNothing(s, q);
    SameTagsFindTheSame(s.slots, Age(s.slots), q);
    FillInSteps(s, q);
  }

  lemma ServedKeepsAges(slots: seq<Slot>, h: seq<u16>, t: seq<Slot>, q: u16, i: nat)
    requires Lru(slots, h) && Served(slots, t, q, i)
    ensures AgesCountRequests(t, h + [q])
  {
    var g := h + [q];
    forall k | 0 <= k < |t| && t[k].count < 32767 ensures LastAt(g, t[k].page, t[k].count) {
      if k != i {
        NotRequested(slots, h, t, q, i, k);
        AnotherRequest(h, q, slots[k].page, slots[k].count);
      }
    }
    forall k | 0 <= k < |t| && t[k].count >= 32767 && t[k].page != 0xFFFF
      ensures NotAmongLast(g, t[k].page, 32767)
    {
      NotRequested(slots, h, t, q, i, k);
      LongAgo(h, q, slots[k]);
    }
  }

  // A page's last request lies one further back after a request for another.
  lemma AnotherRequest(h: seq<u16>, q: u16, p: u16, k: nat)
    requires LastAt(h, p, k) && p != q
    ensures LastAt(h + [q], p, k + 1)
  {
    var g := h + [q];
    assert forall m :: 0 <= m < |h| ==> g[m] == h[m];
  }

  lemma LongAgo(h: seq<u16>, q: u16, x: Slot)
    requires x.page != q && x.count >= 32766
    requires if x.count < 32767 then LastAt(h, x.page, x.count) else NotAmongLast(h, x.page, 32767)
    ensures NotAmongLast(h + [q], x.page, 32767)
  {
    var g := h + [q];
    assert forall m :: 0 <= m < |h| ==> g[m] == h[m];
  }

  // A slot other than the one handed out does not carry the requested tag, sentinels apart.
  lemma NotRequested(slots: seq<Slot>, h: seq<u16>, t: seq<Slot>, q: u16, i: nat, k: nat)
    requires Lru(slots, h) && Served(slots, t, q, i) && k < |t| && k != i
    requires t[k].count < 32767 || t[k].page != 0xFFFF
    ensures slots[k].page != q
  {
    assert slots[k].page == q ==> Find(slots, q) < |slots|;
    assert i < k && slots[i].page == slots[k].page ==> slots[k].count == 32767;
  }

  lemma ServedKeepsFirstTag(slots: seq<Slot>, h: seq<u16>, t: seq<Slot>, q: u16, i: nat)
    requires Lru(slots, h) && Served(slots, t, q, i)
    ensures FirstTagOnly(t)
  {}

  lemma ServedKeepsYounger(slots: seq<Slot>, h: seq<u16>, t: seq<Slot>, q: u16, i: nat)
    requires Lru(slots, h) && Served(slots, t, q, i)
    ensures YoungerAreResident(t, h + [q])
  {
    var g := h + [q];
    forall k, m | 0 <= k < |t| && t[k].count < 32767 && |g| - t[k].count <= m < |g| && 0 <= m
      ensures YoungerSlot(t, g[m], t[k].count)
    {
      if m == |h| {
        assert t[i].page == g[m];
      } else {
        assert k != i && slots[k].count + 1 == t[k].count;
        assert YoungerSlot(slots, h[m], slots[k].count);
        var j :| 0 <= j < |slots| && slots[j].page == h[m] && slots[j].count < slots[k].count;
        assert Find(slots, q) == |slots| ==> AgeSlot(slots[k]).count <= AgeSlot(slots[i]).count;
        assert t[j].page == g[m] && t[j].count < t[k].count;
      }
    }
  }

  lemma ServedKeepsLru(slots: seq<Slot>, h: seq<u16>, t: seq<Slot>, q: u16, i: nat)
    requires Lru(slots, h) && Served(slots, t, q, i)
    ensures Lru(t, h + [q])
  {
    ServedKeepsAges(slots, h, t, q, i);
    ServedKeepsFirstTag(slots, h, t, q, i);
    ServedKeepsYounger(slots, h, t, q, i);
  }

  // ---- counting slots ----

  function Tags(slots: seq<Slot>): set<u16> { set i | 0 <= i < |slots| :: slots[i].page }

  lemma {:induction false} FewTags(slots: seq<Slot>)
    ensures |Tags(slots)| <= |slots|
  {
    if slots != [] {
      var n := |slots| - 1;
      FewTags(slots[..n]);
      assert Tags(slots) == Tags(slots[..n]) + {slots[n].page};
    }
  }

  lemma {:induction false} DistinctTagsCount(slots: seq<Slot>)
    requires forall i, j :: 0 <= i < j < |slots| ==> slots[i].page != slots[j].page
    ensures |Tags(slots)| == |slots|
  {
    if slots != [] {
      var n := |slots| - 1;
      DistinctTagsCount(slots[..n]);
      assert Tags(slots) == Tags(slots[..n]) + {slots[n].page};
      assert slots[n].page !in Tags(slots[..n]);
    }
  }

  lemma SubsetCounts<T>(a: set<T>, b: set<T>)
    requires a <= b
    ensures |a| <= |b|
  {
    assert b == a + (b - a);
  }

  lemma OneMoreCounts<T>(a: set<T>, b: set<T>, x: T)
    requires a <= b
    ensures |a + {x}| <= |b + {x}|
  {
    SubsetCounts(a + {x}, b + {x});
  }

  // The pages among the last k requests.
  function Recent(h: seq<u16>, k: nat): set<u16>
    requires k <= |h|
  {
    set m | |h| - k <= m < |h| :: h[m]
  }

  lemma UnsaturatedTagsDiffer(slots: seq<Slot>, i: nat)
    requires FirstTagOnly(slots) && i < |slots| && slots[i].count + 1 < 32767
    requires forall j :: 0 <= j < |slots| ==> AgeSlot(slots[j]).count <= AgeSlot(slots[i]).count
    ensures |Tags(slots)| == |slots|
  {
    forall a, b | 0 <= a < b < |slots| ensures slots[a].page != slots[b].page {
      assert AgeSlot(slots[b]).count < 32767;
    }
    DistinctTagsCount(slots);
  }

  // A page evicted at age k was followed by requests for as many others as there are slots.
  lemma EvictedAfterManyOthers(slots: seq<Slot>, h: seq<u16>, q: u16, i: nat)
    requires Lru(slots, h) && Find(slots, q) == |slots|
    requires i < |slots| && slots[i].count + 1 < 32767 && slots[i].count < |h|
    requires forall j :: 0 <= j < |slots| ==> AgeSlot(slots[j]).count <= AgeSlot(slots[i]).count
    ensures |Recent(h, slots[i].count) + {q}| >= |slots|
  {
    UnsaturatedTagsDiffer(slots, i);
    CountOthers(slots, i, q);
    OthersBefore(slots, h, i);
    OneMoreCounts(Tags(slots) - {slots[i].page}, Recent(h, slots[i].count), q);
  }

  lemma OthersBefore(slots: seq<Slot>, h: seq<u16>, i: nat)
    requires Lru(slots, h) && i < |slots| && slots[i].count + 1 < 32767 && slots[i].count < |h|
    requires forall j :: 0 <= j < |slots| ==> AgeSlot(slots[j]).count <= AgeSlot(slots[i]).count
    ensures Tags(slots) - {slots[i].page} <= Recent(h, slots[i].count)
  {}

  lemma CountOthers(slots: seq<Slot>, i: nat, q: u16)
    requires i < |slots| && Find(slots, q) == |slots| && |Tags(slots)| == |slots|
    ensures |Tags(slots) - {slots[i].page} + {q}| == |slots|
  {}

  lemma RecentPlusOne(h: seq<u16>, q: u16, k: nat)
    requires k <= |h|
    ensures Recent(h + [q], k + 1) == Recent(h, k) + {q}
  {
    var g := h + [q];
    assert g[|h|] == q;
    forall p | p in Recent(h, k) ensures p in Recent(g, k + 1) {
      var y :| |h| - k <= y < |h| && h[y] == p;
      assert g[y] == p;
    }
  }

  // ---- whole runs ----

  // The pages requested by a run, in order; background checks and flushes request none.
  function Requests(ops: seq<Op>): seq<u16>
    decreases |ops|
  {
    if ops == [] then []
    else
      var op, before := ops[|ops| - 1], Requests(ops[..|ops| - 1]);
      if op.ReadOp? || op.WriteOp? then before + [PageOf(op.addr)] else before
  }

  // Same tags and ages.
  ghost predicate SameAges(a: seq<Slot>, b: seq<Slot>) {
    |a| == |b| && forall i :: 0 <= i < |a| ==> a[i].page == b[i].page && a[i].count == b[i].count
  }

  lemma SameAgesSameLru(a: seq<Slot>, b: seq<Slot>, h: seq<u16>)
    requires Lru(a, h) && SameAges(a, b)
    ensures Lru(b, h)
  {}

  lemma {:induction false} FlushKeepsAges(s: State)
    requires s.Inv()
    ensures SameAges(s.slots, Flush(s).slots)
    decreases DirtyCount(s.slots)
  {
    CheckCleansOne(s);
    if FirstDirty(s.slots) < |s.slots| {
      ChecksFlat(s);
      FlushKeepsAges(Check(s));
    }
  }

  // A read or write serves its page; every other operation leaves tags and ages alone.
  lemma StepServes(s: State, op: Op)
    requires s.Inv()
    ensures op.ReadOp? || op.WriteOp? ==>
              SameAges(Fill(s, PageOf(op.addr)).slots, Step(s, op).slots)
    ensures !op.ReadOp? && !op.WriteOp? ==> SameAges(s.slots, Step(s, op).slots)
  {
    if op.FlushOp? { FlushKeepsAges(s); }
  }

  lemma StepKeepsLru(s: State, op: Op, h: seq<u16>)
    requires s.Inv() && Lru(s.slots, h)
    ensures Lru(Step(s, op).slots, if op.ReadOp? || op.WriteOp? then h + [PageOf(op.addr)] else h)
  {
    StepServes(s, op);
    if op.ReadOp? || op.WriteOp? {
      var q := PageOf(op.addr);
      FillServes(s, q);
      ServedKeepsLru(s.slots, h, Fill(s, q).slots, q, FillIndex(s, q));
      SameAgesSameLru(Fill(s, q).slots, Step(s, op).slots, h + [q]);
    } else {
      SameAgesSameLru(s.slots, Step(s, op).slots, h);
    }
  }

  /** In every run from start-up the ages count requests and the slots form an LRU stack. */
  lemma {:induction false} RunKeepsLru(tk: Token, n: nat, m: Memory, ops: seq<Op>)
    requires tk.Fits() && m.Valid() && n >= 1
    ensures Init(tk, n, m).Inv()
    ensures Lru(Run(Init(tk, n, m), ops).slots, Requests(ops))
    decreases |ops|
  {
    FreshFlat(tk, n, m);
    if ops != [] {
      RunKeepsLru(tk, n, m, ops[..|ops| - 1]);
      RunRefinesFlatArray(Init(tk, n, m), ops[..|ops| - 1]);
      StepKeepsLru(Run(Init(tk, n, m), ops[..|ops| - 1]), ops[|ops| - 1], Requests(ops[..|ops| - 1]));
    }
  }

  ghost predicate Resident(slots: seq<Slot>, p: u16) { Find(slots, p) < |slots| }

  ghost predicate ResidentAtAge(slots: seq<Slot>, p: u16, k: nat) {
    exists i :: 0 <= i < |slots| && slots[i].page == p && slots[i].count == k
  }

  // One more request with too few others behind it does not push the page out.
  lemma ServedKeepsRecent(slots: seq<Slot>, h: seq<u16>, t: seq<Slot>, q: u16, i: nat, p: u16, k: nat)
    requires Lru(slots, h) && Served(slots, t, q, i) && p != q
    requires ResidentAtAge(slots, p, k) && k + 1 < 32767 && k < |h|
    requires |Recent(h + [q], k + 1)| < |slots|
    ensures ResidentAtAge(t, p, k + 1)
  {
    var j :| 0 <= j < |slots| && slots[j].page == p && slots[j].count == k;
    if j == i {
      if Find(slots, q) == |slots| { EvictedAfterManyOthers(slots, h, q, i); RecentPlusOne(h, q, k); }
      assert false;
    }
    assert t[j].page == p && t[j].count == k + 1;
  }

  lemma {:induction false} RecentStaysResident(tk: Token, n: nat, m: Memory, ops: seq<Op>, p: u16, k: nat)
    requires tk.Fits() && m.Valid() && n >= 1
    requires LastAt(Requests(ops), p, k) && k < 32767 && |Recent(Requests(ops), k)| < n
    ensures Init(tk, n, m).Inv()
    ensures ResidentAtAge(Run(Init(tk, n, m), ops).slots, p, k)
    decreases |ops|
  {
    FreshFlat(tk, n, m);
    var init, op, h := ops[..|ops| - 1], ops[|ops| - 1], Requests(ops[..|ops| - 1]);
    var s := Run(Init(tk, n, m), init);
    RunKeepsLru(tk, n, m, init);
    RunRefinesFlatArray(Init(tk, n, m), init);
    if op.ReadOp? || op.WriteOp? {
      if k > 0 {
        RecentGrows(h, PageOf(op.addr), p, k);
        RecentStaysResident(tk, n, m, init, p, k - 1);
      }
      RequestKeepsRecent(s, op, h, p, k);
      StepServes(s, op);
      AgesCarryOver(Fill(s, PageOf(op.addr)).slots, Step(s, op).slots, p, k);
    } else {
      RecentStaysResident(tk, n, m, init, p, k);
      StepServes(s, op);
      AgesCarryOver(s.slots, Step(s, op).slots, p, k);
    }
  }

  lemma RequestKeepsRecent(s: State, op: Op, h: seq<u16>, p: u16, k: nat)
    requires s.Inv() && Lru(s.slots, h) && (op.ReadOp? || op.WriteOp?) && k < 32767
    requires LastAt(h + [PageOf(op.addr)], p, k) && |Recent(h + [PageOf(op.addr)], k)| < |s.slots|
    requires k > 0 ==> ResidentAtAge(s.slots, p, k - 1)
    ensures ResidentAtAge(Fill(s, PageOf(op.addr)).slots, p, k)
  {
    var q := PageOf(op.addr);
    var f, i := Fill(s, q).slots, FillIndex(s, q);
    FillServes(s, q);
    if k == 0 {
      assert f[i].page == p;
    } else {
      RecentGrows(h, q, p, k);
      ServedKeepsRecent(s.slots, h, f, q, i, p, k - 1);
    }
  }

  lemma AgesCarryOver(a: seq<Slot>, b: seq<Slot>, p: u16, k: nat)
    requires SameAges(a, b) && ResidentAtAge(a, p, k)
    ensures ResidentAtAge(b, p, k)
  {}

  lemma RecentGrows(h: seq<u16>, q: u16, p: u16, k: nat)
    requires k >= 1 && LastAt(h + [q], p, k)
    ensures LastAt(h, p, k - 1) && p != q
    ensures |Recent(h, k - 1)| <= |Recent(h + [q], k)|
  {
    var g := h + [q];
    assert g[|h|] == q;
    forall x | 0 <= x < |h| && |h| - (k - 1) <= x ensures h[x] != p { assert g[x] == h[x]; }
    RecentPlusOne(h, q, k - 1);
    SubsetCounts(Recent(h, k - 1), Recent(g, k));
  }

  lemma ResidentFitsTheSlots(slots: seq<Slot>, h: seq<u16>, p: u16, k: nat)
    requires Lru(slots, h) && LastAt(h, p, k) && k < 32767 && p != 0xFFFF && Resident(slots, p)
    ensures |Recent(h, k)| < |slots|
  {
    var i := Find(slots, p);
    assert slots[i].count >= 32767 ==> NotAmongLast(h, p, 32767);
    assert slots[i].count < 32767 ==> LastAt(h, p, slots[i].count);
    assert slots[i].count == k;
    var all := Recent(h, k) + {p};
    forall x | x in all ensures x in Tags(slots) {
      if x != p {
        var y :| |h| - k <= y < |h| && h[y] == x;
        assert YoungerSlot(slots, h[y], slots[i].count);
      } else {
        assert slots[i].page == p;
      }
    }
    assert p !in Recent(h, k);
    FewTags(slots);
    SubsetCounts(all, Tags(slots));
  }

  /** Least recently used, exactly: a page last requested k < 32767 requests ago is still
      resident if and only if fewer distinct pages than there are slots were requested
      since. (Page 0xFFFF doubles as the tag of a fresh slot and is left to the lemma above.) */
  lemma ResidentExactlyWhenRecent(tk: Token, n: nat, m: Memory, ops: seq<Op>, p: u16, k: nat)
    requires tk.Fits() && m.Valid() && n >= 1
    requires LastAt(Requests(ops), p, k) && k < 32767 && p != 0xFFFF
    ensures Init(tk, n, m).Inv()
    ensures Resident(Run(Init(tk, n, m), ops).slots, p) <==> |Recent(Requests(ops), k)| < n
  {
    FreshFlat(tk, n, m);
    RunKeepsLru(tk, n, m, ops);
    var slots := Run(Init(tk, n, m), ops).slots;
    if |Recent(Requests(ops), k)| < n {
      RecentStaysResident(tk, n, m, ops, p, k);
    }
    if Resident(slots, p) {
      ResidentFitsTheSlots(slots, Requests(ops), p, k);
    }
  }
}
