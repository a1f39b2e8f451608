/** Whole runs of the cache: any mix of reads, writes, background checks and flushes at
    any 32-bit addresses, from start-up on. */
module CacheRuns {
  import opened Words
  import opened Chip
  import opened DataFlash
  import opened CacheModel
  import opened CacheRefinement
  import opened FlatMemory
  import opened CacheSteps

  // The state after a run.
  function Run(s: State, ops: seq<Op>): (r: State)
    requires s.Wf()
    ensures r.Wf() && r.tk == s.tk && |r.slots| == |s.slots|
    decreases |ops|
  {
    if ops == [] then s else Step(Run(s, ops[..|ops| - 1]), ops[|ops| - 1])
  }

  lemma RunOneMore(s: State, ops: seq<Op>, op: Op)
    requires s.Wf()
    ensures Run(s, ops + [op]) == Step(Run(s, ops), op)
  {}

  lemma LastApart(a: seq<Op>, b: seq<Op>)
    requires b != []
    ensures b == b[..|b| - 1] + [b[|b| - 1]] && a + b == a + b[..|b| - 1] + [b[|b| - 1]]
  {}

  lemma {:induction false} RunJoin(s: State, a: seq<Op>, b: seq<Op>)
    requires s.Wf()
    ensures Run(Run(s, a), b) == Run(s, a + b)
    decreases |b|
  {
    if b == [] {
      assert a + b == a;
    } else {
      var init, op := b[..|b| - 1], b[|b| - 1];
      LastApart(a, b);
      RunJoin(s, a, init);
      RunOneMore(s, a + init, op);
      RunOneMore(Run(s, a), init, op);
    }
  }

  // What one operation returns.
  function Answer(s: State, op: Op): seq<byte>
    requires s.Wf()
  {
    if op.ReadOp? then [Read1(s, op.addr)] else []
  }

  // The bytes the reads of a run return, in order.
  function Outputs(s: State, ops: seq<Op>): seq<byte>
    requires s.Wf()
    decreases |ops|
  {
    if ops == [] then []
    else
      var init, op := ops[..|ops| - 1], ops[|ops| - 1];
      Outputs(s, init) + Answer(Run(s, init), op)
  }

  lemma OutputsOneMore(s: State, ops: seq<Op>, op: Op)
    requires s.Wf()
    ensures Outputs(s, ops + [op]) == Outputs(s, ops) + Answer(Run(s, ops), op)
  {}

  lemma {:induction false} OutputsJoin(s: State, a: seq<Op>, b: seq<Op>)
    requires s.Wf()
    ensures Outputs(s, a + b) == Outputs(s, a) + Outputs(Run(s, a), b)
    decreases |b|
  {
    if b == [] {
      assert a + b == a;
    } else {
      var init, op := b[..|b| - 1], b[|b| - 1];
      LastApart(a, b);
      OutputsJoin(s, a, init);
      OutputsJoinOneMore(s, a, init, op);
    }
  }

  lemma OutputsJoinOneMore(s: State, a: seq<Op>, b: seq<Op>, op: Op)
    requires s.Wf() && Outputs(s, a + b) == Outputs(s, a) + Outputs(Run(s, a), b)
    ensures Outputs(s, a + b + [op]) == Outputs(s, a) + Outputs(Run(s, a), b + [op])
  {
    RunJoin(s, a, b);
    var t := Run(s, a);
    var x, y, z := Outputs(s, a), Outputs(t, b), Answer(Run(t, b), op);
    AnswersJoin(x, y, z);
    OutputsOneMore(s, a + b, op);
    OutputsOneMore(t, b, op);
  }

  lemma AnswersJoin(x: seq<byte>, y: seq<byte>, z: seq<byte>)
    ensures x + y + z == x + (y + z)
  {}

  lemma OutputsPrefix(s: State, a: seq<Op>, b: seq<Op>)
    requires s.Wf()
    ensures Outputs(s, a) <= Outputs(s, a + b)
  {
    OutputsJoin(s, a, b);
  }

  // ---- the same run on a plain array ----

  function FlatRun(m: seq<byte>, ops: seq<Op>): (r: seq<byte>)
    ensures |r| == |m|
    decreases |ops|
  {
    if ops == [] then m else FlatStep(FlatRun(m, ops[..|ops| - 1]), ops[|ops| - 1])
  }

  // What the reads return there; an out-of-range read has no defined answer.
  function FlatOutputs(m: seq<byte>, ops: seq<Op>): seq<byte>
    requires ReadsInRange(|m|, ops)
    decreases |ops|
  {
    if ops == [] then []
    else
      var init, op := ops[..|ops| - 1], ops[|ops| - 1];
      FlatOutputs(m, init) + if op.ReadOp? then [FlatRun(m, init)[FlatIndex(op.addr)]] else []
  }

  ghost predicate ReadsInRange(size: nat, ops: seq<Op>) {
    forall i :: 0 <= i < |ops| && ops[i].ReadOp? ==> FlatIndex(ops[i].addr) < size
  }

  /** Refinement: in every run the cache keeps its invariant, and cache and flash together
      behave as the plain byte array. */
  lemma {:induction false} RunRefinesFlatArray(s: State, ops: seq<Op>)
    requires s.Inv()
    ensures Run(s, ops).Inv()
    ensures Flat(Run(s, ops)) == FlatRun(Flat(s), ops)
    decreases |ops|
  {
    if ops != [] {
      RunRefinesFlatArray(s, ops[..|ops| - 1]);
      StepRefinesFlatStep(Run(s, ops[..|ops| - 1]), ops[|ops| - 1]);
    }
  }

  /** ... and no client whose reads are in range can tell the two apart. */
  lemma {:induction false} OutputsAreTheFlatArrays(s: State, ops: seq<Op>)
    requires s.Inv() && ReadsInRange(|Flat(s)|, ops)
    ensures Outputs(s, ops) == FlatOutputs(Flat(s), ops)
    decreases |ops|
  {
    if ops != [] {
      var init, op := ops[..|ops| - 1], ops[|ops| - 1];
      OutputsAreTheFlatArrays(s, init);
      RunRefinesFlatArray(s, init);
      if op.ReadOp? { ReadsFlat(Run(s, init), op.addr); }
    }
  }

  // The byte most recently written at index k of the array, if any.
  function LastWritten(ops: seq<Op>, k: nat, otherwise: byte): byte
    decreases |ops|
  {
    if ops == [] then otherwise
    else
      var op := ops[|ops| - 1];
      if op.WriteOp? && FlatIndex(op.addr) == k then op.data
      else LastWritten(ops[..|ops| - 1], k, otherwise)
  }

  lemma {:induction false} FlatRunRemembersLastWrite(m: seq<byte>, ops: seq<Op>, k: nat)
    requires k < |m|
    ensures FlatRun(m, ops)[k] == LastWritten(ops, k, m[k])
    decreases |ops|
  {
    if ops != [] { FlatRunRemembersLastWrite(m, ops[..|ops| - 1], k); }
  }

  /** From start-up, with any cache size and any token range: a read at an in-range
      address returns the byte last written there, or what the flash held at start-up.
      Nothing done at out-of-range addresses before it makes a difference. */
  lemma ReadReturnsLastWrite(tk: Token, n: nat, m: Memory, ops: seq<Op>, addr: u32)
    requires tk.Fits() && m.Valid() && n >= 1 && addr / 512 % 0x1_0000 < tk.size
    ensures Init(tk, n, m).Inv()
    ensures Read1(Run(Init(tk, n, m), ops), addr)
         == LastWritten(ops, FlatIndex(addr), m.main[tk.first + PageOf(addr)][addr % 512])
  {
    FreshFlat(tk, n, m);
    var s := Init(tk, n, m);
    IndexFields(s, addr);
    RunRefinesFlatArray(s, ops);
    FlatRunRemembersLastWrite(Flat(s), ops, FlatIndex(addr));
    ReadsFlat(Run(s, ops), addr);
  }

  // The run without its reads and writes of out-of-range pages.
  function InRangeOnly(ops: seq<Op>, size: u16): seq<Op>
    decreases |ops|
  {
    if ops == [] then []
    else
      var op, before := ops[|ops| - 1], InRangeOnly(ops[..|ops| - 1], size);
      if (op.ReadOp? || op.WriteOp?) && PageOf(op.addr) >= size then before else before + [op]
  }

  /** Isolation: dropping every access to an out-of-range page from a run changes no
      in-range byte, although such accesses take slots and force evictions. */
  lemma {:induction false} OutOfRangeIsIsolated(s: State, ops: seq<Op>)
    requires s.Inv()
    ensures Flat(Run(s, ops)) == Flat(Run(s, InRangeOnly(ops, s.tk.size)))
    decreases |ops|
  {
    if ops != [] {
      var init, op := ops[..|ops| - 1], ops[|ops| - 1];
      var kept := InRangeOnly(init, s.tk.size);
      OutOfRangeIsIsolated(s, init);
      FlatAfterOneMore(s, init, op);
      FlatAfterOneMore(s, kept, op);
      LastApart([], ops);
      if op.WriteOp? { IndexFields(Run(s, init), op.addr); }
    }
  }

  lemma FlatAfterOneMore(s: State, ops: seq<Op>, op: Op)
    requires s.Inv()
    ensures Flat(Run(s, ops + [op])) == FlatStep(Flat(Run(s, ops)), op)
    ensures |Flat(Run(s, ops))| == s.tk.size * EE_PAGE_SIZE
  {
    RunRefinesFlatArray(s, ops);
    RunOneMore(s, ops, op);
    StepRefinesFlatStep(Run(s, ops), op);
  }

  // ---- what a run leaves in flash ----

  // The 512 bytes of one page of the flat array.
  function FlatPage(m: seq<byte>, p: nat): seq<byte>
    requires (p + 1) * EE_PAGE_SIZE <= |m|
  {
    m[p * EE_PAGE_SIZE..(p + 1) * EE_PAGE_SIZE]
  }

  lemma FlatPageIsView(s: State, p: u16)
    requires s.Wf() && TokenCheck(s.tk, p)
    ensures (p + 1) * EE_PAGE_SIZE <= |Flat(s)| && FlatPage(Flat(s), p) == PageView(s, p)
  {}

  // The flash copy of page p after the run is what a client saw there after j operations.
  ghost predicate SnapshotOf(s: State, ops: seq<Op>, p: u16, j: nat)
    requires s.Wf() && TokenCheck(s.tk, p)
  {
    j <= |ops| && FlashPage(s.tk, Run(s, ops).mem, p) == PageView(Run(s, ops[..j]), p)
  }

  lemma MomentsStay(s: State, init: seq<Op>, op: Op, j: nat)
    requires s.Wf() && j <= |init|
    ensures Run(s, (init + [op])[..j]) == Run(s, init[..j]) && Run(s, (init + [op])[..|init|]) == Run(s, init)
  {
    assert (init + [op])[..j] == init[..j] && (init + [op])[..|init|] == init;
  }

  // One operation leaves a page's flash copy alone or makes it what the page showed.
  lemma FlashStaysOrCatchesUp(s: State, init: seq<Op>, op: Op, p: u16)
    requires s.Inv() && TokenCheck(s.tk, p)
    ensures var f := FlashPage(s.tk, Run(s, init + [op]).mem, p);
            f == FlashPage(s.tk, Run(s, init).mem, p) || f == PageView(Run(s, init), p)
  {
    RunRefinesFlatArray(s, init);
    RunOneMore(s, init, op);
    StepAccounts(Run(s, init), op, p);
  }

  // One more operation: the flash copy is still the old snapshot or one of just before.
  lemma SnapshotAfterOneMore(s: State, init: seq<Op>, op: Op, p: u16, j: nat) returns (i: nat)
    requires s.Inv() && TokenCheck(s.tk, p) && SnapshotOf(s, init, p, j)
    ensures SnapshotOf(s, init + [op], p, i)
  {
    FlashStaysOrCatchesUp(s, init, op, p);
    MomentsStay(s, init, op, j);
    i := if FlashPage(s.tk, Run(s, init + [op]).mem, p) == PageView(Run(s, init), p) then |init| else j;
  }

  lemma {:induction false} SomeMomentIsInFlash(s: State, ops: seq<Op>, p: u16) returns (j: nat)
    requires s.Inv() && TokenCheck(s.tk, p)
    requires FlashPage(s.tk, s.mem, p) == PageView(s, p)
    ensures SnapshotOf(s, ops, p, j)
    decreases |ops|
  {
    if ops == [] {
      j := 0;
    } else {
      var init, op := ops[..|ops| - 1], ops[|ops| - 1];
      LastApart([], ops);
      j := SomeMomentIsInFlash(s, init, p);
      j := SnapshotAfterOneMore(s, init, op, p, j);
    }
  }

  /** Snapshots: after any run from start-up each in-range flash page holds that page of
      the flat array as it was at one moment of the run - never a mix of two moments or of
      two pages. */
  lemma FlashPageIsASnapshot(tk: Token, n: nat, m: Memory, ops: seq<Op>, p: u16)
    requires tk.Fits() && m.Valid() && n >= 1 && TokenCheck(tk, p)
    ensures Init(tk, n, m).Inv() && (p + 1) * EE_PAGE_SIZE <= |FlashBytes(tk, m)|
    ensures exists j :: 0 <= j <= |ops| &&
              Run(Init(tk, n, m), ops).mem.main[tk.first + p][..512]
              == FlatRun(FlashBytes(tk, m), ops[..j])[p * 512..(p + 1) * 512]
  {
    var s := Init(tk, n, m);
    FreshFlat(tk, n, m);
    FreshIsUsable(tk, n, m);
    FlatPageIsView(s, p);
    var j := SomeMomentIsInFlash(s, ops, p);
    RunRefinesFlatArray(s, ops[..j]);
    FlatPageIsView(Run(s, ops[..j]), p);
  }

  // How many writes of the run changed a byte of page p of the array.
  function ChangingWrites(m: seq<byte>, ops: seq<Op>, p: nat): nat
    decreases |ops|
  {
    if ops == [] then 0
    else
      var op, before := ops[|ops| - 1], FlatRun(m, ops[..|ops| - 1]);
      ChangingWrites(m, ops[..|ops| - 1], p)
      + (if op.WriteOp? && PageOf(op.addr) == p && FlatStep(before, op) != before then 1 else 0)
  }

  lemma {:induction false} WearWithinBudget(s: State, ops: seq<Op>, p: u16)
    requires s.Inv() && TokenCheck(s.tk, p)
    ensures Owed(Run(s, ops), p) <= Owed(s, p) + ChangingWrites(Flat(s), ops, p)
    decreases |ops|
  {
    if ops != [] {
      var init, before := ops[..|ops| - 1], Run(s, ops[..|ops| - 1]);
      WearWithinBudget(s, init, p);
      RunRefinesFlatArray(s, init);
      StepAccounts(before, ops[|ops| - 1], p);
    }
  }

  /** Wear: from start-up an in-range page is programmed at most once for each write that
      changed one of its bytes; start-up's dirty sentinels cost nothing. */
  lemma ProgramsAtMostChangingWrites(tk: Token, n: nat, m: Memory, ops: seq<Op>, p: u16)
    requires tk.Fits() && m.Valid() && n >= 1 && TokenCheck(tk, p)
    ensures Init(tk, n, m).Inv()
    ensures Run(Init(tk, n, m), ops).mem.wear[tk.first + p]
         <= m.wear[tk.first + p] + ChangingWrites(FlashBytes(tk, m), ops, p)
  {
    FreshFlat(tk, n, m);
    WearWithinBudget(Init(tk, n, m), ops, p);
  }

  /** Chip pages outside the token's share are never programmed and keep all 528 bytes. */
  lemma {:induction false} OutsidePagesUntouched(s: State, ops: seq<Op>, q: nat)
    requires s.Inv() && q < FLASH_PAGES && !(s.tk.first <= q < s.tk.first + s.tk.size)
    ensures Run(s, ops).mem.main[q] == s.mem.main[q] && Run(s, ops).mem.wear[q] == s.mem.wear[q]
    decreases |ops|
  {
    if ops != [] {
      OutsidePagesUntouched(s, ops[..|ops| - 1], q);
      RunRefinesFlatArray(s, ops[..|ops| - 1]);
      StepStaysInside(Run(s, ops[..|ops| - 1]), ops[|ops| - 1], q);
    }
  }
}
