/** The main loop's time schedule: which heartbeat ticks it processes, when it writes a
    dirty page back and when it samples the channels, with ticks arriving and commands
    using the EEPROM at any moment. */
module MainLoop {
  import opened Words
  import opened CacheModel
  import opened FlatMemory
  import opened CacheSteps
  import CacheRuns
  import opened Heartbeat
  import opened Eeprom

  /** One step: a tick interrupt, one turn of the loop, or one EEPROM operation of a
      command. A command runs in the middle of a turn, but the turn's heartbeat part does
      not touch the EEPROM, so that is the same as just before the turn. */
  datatype Event = Tick | Turn | Access(op: Op)

  /** Counters of a run: ticks that arrived, ticks processed, 256-tick losses when the
      8-bit backlog wraps, write-back checks and those of them that found a dirty slot,
      one-second services, and writes that changed a byte. */
  datatype Machine = Machine(
    beat: Beat, ee: State,
    ticks: nat, processed: nat, wraps: nat, checks: nat, cleaned: nat, seconds: nat, changes: nat)

  // The counters once one turn has processed a tick and served what was due.
  function BeatAfterTurn(was: Beat): Beat {
    var b := Processed(was);
    b.(c10 := if b.c10 >= 10 then 0 else b.c10, c1s := if b.c1s >= 1000 then 0 else b.c1s)
  }

  // One turn of the loop, commands apart.
  function TurnOf(m: Machine): (r: Machine)
    requires m.ee.Wf()
    ensures r.ee.Wf() && r.ee.tk == m.ee.tk && |r.ee.slots| == |m.ee.slots|
  {
    var b := Processed(m.beat);
    m.(beat := BeatAfterTurn(m.beat),
       ee := if b.c10 >= 10 then Check(m.ee) else m.ee,
       processed := m.processed + if m.beat.ms != 0 then 1 else 0,
       checks := m.checks + if b.c10 >= 10 then 1 else 0,
       cleaned := m.cleaned + if b.c10 >= 10 && DirtyCount(m.ee.slots) > 0 then 1 else 0,
       seconds := m.seconds + if b.c1s >= 1000 then 1 else 0)
  }

  function TickIn(m: Machine): Machine {
    m.(beat := TickOf(m.beat), ticks := m.ticks + 1, wraps := m.wraps + if m.beat.ms == 255 then 1 else 0)
  }

  function Accessed(m: Machine, op: Op): (r: Machine)
    requires m.ee.Wf()
    ensures r.ee.Wf() && r.ee.tk == m.ee.tk && |r.ee.slots| == |m.ee.slots|
  {
    m.(ee := Step(m.ee, op), changes := m.changes + if Changes(m.ee, op) then 1 else 0)
  }

  function Next(m: Machine, e: Event): (r: Machine)
    requires m.ee.Wf()
    ensures r.ee.Wf() && r.ee.tk == m.ee.tk && |r.ee.slots| == |m.ee.slots|
  {
    match e
    case Tick => TickIn(m)
    case Turn => TurnOf(m)
    case Access(op) => Accessed(m, op)
  }

  function Run(m: Machine, events: seq<Event>): (r: Machine)
    requires m.ee.Wf()
    ensures r.ee.Wf() && r.ee.tk == m.ee.tk && |r.ee.slots| == |m.ee.slots|
    decreases |events|
  {
    if events == [] then m else Next(Run(m, events[..|events| - 1]), events[|events| - 1])
  }

  // The loop's counters are below their limits, as they are between any two turns.
  ghost predicate Ready(m: Machine) { m.ee.Wf() && m.beat.c10 < 10 && m.beat.c1s < 1000 }

  // What the clock of a run from m has done.
  ghost predicate OnSchedule(m: Machine, r: Machine) {
    && Ready(r)
    && m.beat.c10 + r.processed + 10 * m.checks == 10 * r.checks + r.beat.c10 + m.processed
    && m.beat.c1s + r.processed + 1000 * m.seconds == 1000 * r.seconds + r.beat.c1s + m.processed
  }

  lemma NextStaysOnSchedule(m: Machine, r: Machine, e: Event)
    requires OnSchedule(m, r)
    ensures OnSchedule(m, Next(r, e))
  {}

  /** Exact schedule: after any interleaving of ticks, turns and EEPROM accesses the
      write-back checks made are the processed ticks divided by ten and the one-second
      services the processed ticks divided by a thousand, counting from where the counters
      stood. */
  lemma {:induction false} ScheduleIsExact(m: Machine, events: seq<Event>)
    requires Ready(m)
    ensures OnSchedule(m, Run(m, events))
    decreases |events|
  {
    if events != [] {
      ScheduleIsExact(m, events[..|events| - 1]);
      NextStaysOnSchedule(m, Run(m, events[..|events| - 1]), events[|events| - 1]);
    }
  }

  // ---- dirty slots ----

  // Dirty slots and cleaning checks are paid for by the first dirty slots and by changes.
  ghost predicate DirtyPaid(m: Machine, r: Machine) {
    && r.ee.Wf() && m.ee.Wf()
    && DirtyCount(r.ee.slots) + r.cleaned + m.changes <= DirtyCount(m.ee.slots) + r.changes + m.cleaned
  }

  lemma NextStaysPaid(m: Machine, r: Machine, e: Event)
    requires DirtyPaid(m, r)
    ensures DirtyPaid(m, Next(r, e))
  {
    match e
    case Tick =>
    case Turn => CheckCleansOne(r.ee);
    case Access(op) => StepCounts(r.ee, op);
  }

  /** With commands writing at any moment: the dirty slots, plus the checks that cleaned
      one, are at most the slots dirty at first plus the writes that changed a byte. */
  lemma {:induction false} DirtyIsBounded(m: Machine, events: seq<Event>)
    requires m.ee.Wf()
    ensures DirtyPaid(m, Run(m, events))
    decreases |events|
  {
    if events != [] {
      DirtyIsBounded(m, events[..|events| - 1]);
      NextStaysPaid(m, Run(m, events[..|events| - 1]), events[|events| - 1]);
    }
  }

  ghost predicate NoAccess(events: seq<Event>) {
    forall i :: 0 <= i < |events| ==> !events[i].Access?
  }

  function Monus(a: nat, b: nat): nat { if a < b then 0 else a - b }

  // Without accesses every check cleans one dirty slot as long as there is one.
  ghost predicate Draining(m: Machine, r: Machine) {
    r.ee.Wf() && m.ee.Wf() && r.checks >= m.checks
    && DirtyCount(r.ee.slots) == Monus(DirtyCount(m.ee.slots), r.checks - m.checks)
  }

  lemma NextDrains(m: Machine, r: Machine, e: Event)
    requires Draining(m, r) && !e.Access?
    ensures Draining(m, Next(r, e))
  {
    CheckCleansOne(r.ee);
  }

  lemma {:induction false} QuietRunDrains(m: Machine, events: seq<Event>)
    requires m.ee.Wf() && NoAccess(events)
    ensures Draining(m, Run(m, events))
    decreases |events|
  {
    if events != [] {
      QuietRunDrains(m, events[..|events| - 1]);
      NextDrains(m, Run(m, events[..|events| - 1]), events[|events| - 1]);
    }
  }

  /** D dirty slots are all clean once 10 * D ticks have been processed since the last
      access, wherever in its ten the clock stood. */
  lemma AllCleanAfterTenTicksEach(m: Machine, events: seq<Event>)
    requires Ready(m) && NoAccess(events)
    requires Run(m, events).processed >= m.processed + 10 * DirtyCount(m.ee.slots)
    ensures DirtyCount(Run(m, events).ee.slots) == 0
  {
    ScheduleIsExact(m, events);
    QuietRunDrains(m, events);
  }

  // ---- what flash ends up holding ----

  // The EEPROM operations of a run, in order.
  function Accesses(events: seq<Event>): seq<Op>
    decreases |events|
  {
    if events == [] then []
    else
      var init, e := events[..|events| - 1], events[|events| - 1];
      Accesses(init) + if e.Access? then [e.op] else []
  }

  lemma FlatOneMore(a: seq<byte>, ops: seq<Op>, op: Op)
    ensures CacheRuns.FlatRun(a, ops + [op]) == FlatStep(CacheRuns.FlatRun(a, ops), op)
  {
    assert (ops + [op])[..|ops|] == ops;
  }

  /** The clock's write-backs are invisible: what a client sees is its accesses' doing. */
  lemma {:induction false} LoopRefinesAccesses(m: Machine, events: seq<Event>)
    requires m.ee.Inv()
    ensures Run(m, events).ee.Inv()
    ensures Flat(Run(m, events).ee) == CacheRuns.FlatRun(Flat(m.ee), Accesses(events))
    decreases |events|
  {
    if events != [] {
      var init, e := events[..|events| - 1], events[|events| - 1];
      var before := Run(m, init);
      LoopRefinesAccesses(m, init);
      match e
      case Tick => assert Accesses(events) == Accesses(init);
      case Turn => assert Accesses(events) == Accesses(init); ChecksFlat(before.ee);
      case Access(op) =>
        StepRefinesFlatStep(before.ee, op);
        FlatOneMore(Flat(m.ee), Accesses(init), op);
    }
  }

  lemma CleanIsInFlash(s: State)
    requires s.Inv() && DirtyCount(s.slots) == 0
    ensures FlashBytes(s.tk, s.mem) == Flat(s)
  {
    NoDirtyCountsZero(s.slots);
    FlushesFlat(s);
  }

  /** Flash catches up: whatever ticks, turns and accesses came first, once the loop has
      processed ten ticks for every slot then dirty - ten for every slot of the cache is
      always enough - flash holds exactly what those accesses made of the array. */
  lemma FlashCatchesUp(m: Machine, busy: seq<Event>, quiet: seq<Event>)
    requires Ready(m) && m.ee.Inv() && NoAccess(quiet)
    requires var w := Run(m, busy); var p := Run(w, quiet).processed - w.processed;
             p >= 10 * DirtyCount(w.ee.slots) || p >= 10 * |m.ee.slots|
    ensures FlashBytes(m.ee.tk, Run(Run(m, busy), quiet).ee.mem) == CacheRuns.FlatRun(Flat(m.ee), Accesses(busy))
  {
    var w := Run(m, busy);
    ScheduleIsExact(m, busy);
    DirtyAtMostAll(w.ee.slots);
    AllCleanAfterTenTicksEach(w, quiet);
    LoopRefinesAccesses(m, busy);
    LoopRefinesAccesses(w, quiet);
    NoAccesses(quiet);
    CleanIsInFlash(Run(w, quiet).ee);
  }

  lemma {:induction false} NoAccesses(events: seq<Event>)
    requires NoAccess(events)
    ensures Accesses(events) == []
    decreases |events|
  {
    if events != [] { NoAccesses(events[..|events| - 1]); }
  }

  // ---- ticks ----

  // Every tick that arrived is processed, pending, or one of a lost 256.
  ghost predicate Accounted(m: Machine, r: Machine) {
    m.beat.ms + r.ticks + m.processed + 256 * m.wraps == r.processed + r.beat.ms + 256 * r.wraps + m.ticks
  }

  // The free-running counters follow ticks and processed ticks, each modulo its width.
  ghost predicate Following(m: Machine, r: Machine) {
    && r.ticks >= m.ticks && r.processed >= m.processed
    && r.beat.alive == (m.beat.alive + (r.ticks - m.ticks)) % 0x1_0000_0000
    && r.beat.c100 == (m.beat.c100 + (r.processed - m.processed)) % 0x100
  }

  lemma CountsOn(x: nat)
    ensures (x % 0x1_0000_0000 + 1) % 0x1_0000_0000 == (x + 1) % 0x1_0000_0000
  {
    var q, r := x / 0x1_0000_0000, x % 0x1_0000_0000;
    assert x + 1 == 0x1_0000_0000 * q + (r + 1);
  }

  lemma ByteCountsOn(x: nat)
    ensures (x % 0x100 + 1) % 0x100 == (x + 1) % 0x100
  {}

  lemma NextStaysFollowing(m: Machine, r: Machine, e: Event)
    requires r.ee.Wf() && Following(m, r)
    ensures Following(m, Next(r, e))
  {
    CountsOn(m.beat.alive + (r.ticks - m.ticks));
    ByteCountsOn(m.beat.c100 + (r.processed - m.processed));
  }

  lemma NextStaysAccounted(m: Machine, r: Machine, e: Event)
    requires r.ee.Wf() && Accounted(m, r)
    ensures Accounted(m, Next(r, e))
  {}

  /** No tick is lost but by the 8-bit backlog wrapping: what was processed and what is
      pending account for every tick, 256 short for each wrap. */
  lemma {:induction false} TicksAccounted(m: Machine, events: seq<Event>)
    requires m.ee.Wf()
    ensures Accounted(m, Run(m, events)) && Following(m, Run(m, events))
    decreases |events|
  {
    if events != [] {
      TicksAccounted(m, events[..|events| - 1]);
      NextStaysFollowing(m, Run(m, events[..|events| - 1]), events[|events| - 1]);
      NextStaysAccounted(m, Run(m, events[..|events| - 1]), events[|events| - 1]);
    }
  }

  // The timed part of one turn of main's loop, on the real objects.
  method ServiceOnce(hb: Heartbeat, ee: Eeprom) returns (sample: bool)
    requires ee.Valid() && hb !in ee.Repr
    modifies hb, ee`slots, ee.Repr, ee.bus
    ensures ee.Valid() && hb.Now() == BeatAfterTurn(old(hb.Now()))
    ensures ee.Now() == if Processed(old(hb.Now())).c10 >= 10 then Check(old(ee.Now())) else old(ee.Now())
    ensures sample == (Processed(old(hb.Now())).c1s >= 1000)
  {
    ghost var was := ee.Now();
    var _ := hb.Run();
    var due := hb.Is10ms();
    assert ee.Valid() && ee.Now() == was;
    if due {
      var _ := ee.CacheCheck();
    }
    sample := hb.Is1s();
  }
}
