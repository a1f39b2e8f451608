/** The firmware's serial buffers: two 256-byte rings with 8-bit indices between the main
    loop and the USART interrupt. Each method is one atomic step. */
module UartBuffer {
  import opened Text

  const BUFFER_SIZE := 256

  type index = x: int | 0 <= x < 256

  // The pending bytes of a ring, oldest first.
  function Pending(buf: seq<char>, first: index, end: index): (r: seq<char>)
    requires |buf| == BUFFER_SIZE
    ensures |r| == (end - first) % 256
  {
    seq((end - first) % 256, k requires 0 <= k < 256 => buf[(first + k) % 256])
  }

  /** Storing at the end index adds one pending byte - but a ring of 255 then looks empty. */
  lemma PendingPush(buf: seq<char>, first: index, end: index, c: char)
    requires |buf| == BUFFER_SIZE
    ensures var p := Pending(buf, first, end);
            Pending(buf[end := c], first, (end + 1) % 256) == if |p| == 255 then [] else p + [c]
  {
    var n, p := (end - first) % 256, Pending(buf, first, end);
    var r := Pending(buf[end := c], first, (end + 1) % 256);
    Indices(first, end);
    if n < 255 {
      forall k | 0 <= k < n ensures r[k] == p[k] { StoreElsewhere(buf, first, end, c, k); }
      assert r[n] == c;
      assert r[..n] == p;
    }
  }

  lemma Indices(first: index, end: index)
    ensures var n := (end - first) % 256;
            (first + n) % 256 == end && ((end + 1) % 256 - first) % 256 == (n + 1) % 256
  {}

  lemma StoreElsewhere(buf: seq<char>, first: index, end: index, c: char, k: nat)
    requires |buf| == BUFFER_SIZE && k < (end - first) % 256
    ensures buf[end := c][(first + k) % 256] == buf[(first + k) % 256]
  {
    assert (first + k) % 256 != end;
  }

  lemma PendingPop(buf: seq<char>, first: index, end: index)
    requires |buf| == BUFFER_SIZE && first != end
    ensures var p := Pending(buf, first, end);
            |p| > 0 && p[0] == buf[first] && Pending(buf, (first + 1) % 256, end) == p[1..]
  {
    var n, p := (end - first) % 256, Pending(buf, first, end);
    var r := Pending(buf, (first + 1) % 256, end);
    assert n > 0 && |r| == n - 1;
    forall k | 0 <= k < |r| ensures r[k] == p[k + 1] {
      assert ((first + 1) % 256 + k) % 256 == (first + (k + 1)) % 256;
    }
  }

  // PutChar's test compares the unwrapped sum.
  lemma TestIs(txOut: index, txIn: index)
    ensures txOut + 1 != txIn <==> (txIn - txOut) % 256 != 1 || txOut == 255
  {}

  // ---- the two rings as values ----

  datatype Rings = Rings(tx: seq<char>, txOut: index, rx: seq<char>)

  /** When PutChar's test lets a byte in: never behind exactly one pending byte, except
      where the out index is 255 and the sum on the left is 256. */
  predicate TxAccepts(r: Rings) { |r.tx| != 1 || r.txOut == 255 }

  function Stored(r: Rings, c: char): Rings {
    if !TxAccepts(r) then r
    else if |r.tx| == 255 then r.(tx := [])
    else r.(tx := r.tx + [c])
  }

  // The interrupt's transmit half: one byte to a ready transmitter.
  function Transmitted(r: Rings, ready: bool): Rings {
    if ready && |r.tx| > 0 then r.(tx := r.tx[1..], txOut := (r.txOut + 1) % 256) else r
  }

  function OnTheWire(r: Rings, ready: bool): seq<char> {
    if ready && |r.tx| > 0 then [r.tx[0]] else []
  }

  // The interrupt's receive half.
  function Received(r: Rings, arrival: Option<char>): Rings {
    if arrival == None then r
    else if |r.rx| == 255 then r.(rx := [])
    else r.(rx := r.rx + [arrival.value])
  }

  function Interrupted(r: Rings, ready: bool, arrival: Option<char>): Rings {
    Received(Transmitted(r, ready), arrival)
  }

  class UartBuffer {
    const txBuffer: array<char>
    const rxBuffer: array<char>
    var txIn: index
    var txOut: index
    var rxIn: index
    var rxOut: index

    ghost predicate Valid()
      reads this
    {
      txBuffer.Length == BUFFER_SIZE && rxBuffer.Length == BUFFER_SIZE && txBuffer != rxBuffer
    }

    ghost function Now(): Rings
      requires Valid()
      reads this, txBuffer, rxBuffer
    {
      Rings(Pending(txBuffer[..], txOut, txIn), txOut, Pending(rxBuffer[..], rxOut, rxIn))
    }

    constructor ()
      ensures Valid() && fresh(txBuffer) && fresh(rxBuffer) && Now() == Rings([], 0, [])
    {
      txBuffer := new char[BUFFER_SIZE](_ => '\0');
      rxBuffer := new char[BUFFER_SIZE](_ => '\0');
      txIn, txOut, rxIn, rxOut := 0, 0, 0, 0;
    }

    // The oldest pending byte to a ready transmitter.
    method Transmit(ready: bool) returns (sent: seq<char>)
      requires Valid()
      modifies this`txOut
      ensures Valid() && Now() == Transmitted(old(Now()), ready) && sent == OnTheWire(old(Now()), ready)
    {
      sent := [];
      if ready {
        if txOut != txIn {
          PendingPop(txBuffer[..], txOut, txIn);
          sent := [txBuffer[txOut]];
          txOut := (txOut + 1) % 256;
        }
      }
    }

    method Receive(c: char)
      requires Valid()
      modifies this`rxIn, rxBuffer
      ensures Valid() && Now() == Received(old(Now()), Some(c))
    {
      ghost var was := rxBuffer[..];
      PendingPush(was, rxOut, rxIn, c);
      rxBuffer[rxIn] := c;
      assert rxBuffer[..] == was[rxIn := c];
      rxIn := (rxIn + 1) % 256;
    }

    method Interrupt(ready: bool, arrival: Option<char>) returns (sent: seq<char>)
      requires Valid()
      modifies this`txOut, this`rxIn, rxBuffer
      ensures Valid() && Now() == Interrupted(old(Now()), ready, arrival)
      ensures sent == OnTheWire(old(Now()), ready)
    {
      sent := Transmit(ready);
      if arrival != None {
        Receive(arrival.value);
      }
    }

    // A byte into the transmit ring, if the test lets it in.
    method Queue(c: char)
      requires Valid()
      modifies this`txIn, txBuffer
      ensures Valid() && Now() == Stored(old(Now()), c)
    {
      TestIs(txOut, txIn);
      var outNext := txOut + 1;
      if outNext != txIn {
        ghost var was := txBuffer[..];
        PendingPush(was, txOut, txIn, c);
        txBuffer[txIn] := c;
        assert txBuffer[..] == was[txIn := c];
        txIn := (txIn + 1) % 256;
      }
    }

    method PutChar(c: char, ready: bool, arrival: Option<char>) returns (sent: seq<char>)
      requires Valid()
      modifies this, txBuffer, rxBuffer
      ensures Valid() && Now() == Interrupted(Stored(old(Now()), c), ready, arrival)
      ensures sent == OnTheWire(Stored(old(Now()), c), ready)
    {
      Queue(c);
      sent := Interrupt(ready, arrival);
    }

    method RxReady() returns (ready: bool)
      requires Valid()
      ensures ready == (Now().rx != [])
    {
      ready := rxIn != rxOut;
    }

    // A NUL when nothing has been received.
    method GetChar() returns (c: char)
      requires Valid()
      modifies this`rxOut
      ensures Valid()
      ensures if old(Now()).rx == [] then c == '\0' && Now() == old(Now())
              else c == old(Now()).rx[0] && Now() == old(Now()).(rx := old(Now()).rx[1..])
    {
      c := '\0';
      var ready := RxReady();
      if ready {
        PendingPop(rxBuffer[..], rxOut, rxIn);
        c := rxBuffer[rxOut];
        rxOut := (rxOut + 1) % 256;
      }
    }

    /** A string put byte by byte up to its NUL, with the transmitter and the line as the
        moments say. */
    method PutString(str: string, moments: seq<Moment>) returns (sent: seq<char>)
      requires Valid() && |moments| == |CText(str)|
      modifies this, txBuffer, rxBuffer
      ensures Valid()
      ensures var l := Run(From(old(Now())), Puts(CText(str), moments)); Now() == l.rings && sent == l.sent
    {
      ghost var start, s := From(Now()), CText(str);
      var n := 0;
      sent := [];
      while n < |str| && str[n] != '\0'
        invariant n <= |s| && Valid()
        invariant var l := Run(start, Puts(s[..n], moments[..n])); Now() == l.rings && sent == l.sent
        decreases |s| - n
      {
        AtEnd(str, n);
        PutsOneMore(s, moments, n);
        var w := PutChar(str[n], moments[n].ready, moments[n].arrival);
        sent, n := sent + w, n + 1;
      }
      AtEnd(str, n);
      assert s[..|s|] == s && moments[..|s|] == moments;
    }
  }

  // What the transmitter and the line do while one byte is put.
  datatype Moment = Moment(ready: bool, arrival: Option<char>)

  function Puts(s: seq<char>, moments: seq<Moment>): seq<Event>
    requires |moments| == |s|
  {
    seq(|s|, i requires 0 <= i < |s| => Put(s[i], moments[i].ready, moments[i].arrival))
  }

  lemma PutsOneMore(s: seq<char>, moments: seq<Moment>, i: nat)
    requires |moments| == |s| && i < |s|
    ensures Puts(s[..i + 1], moments[..i + 1])
         == Puts(s[..i], moments[..i]) + [Put(s[i], moments[i].ready, moments[i].arrival)]
    ensures Puts(s[..i + 1], moments[..i + 1])[..i] == Puts(s[..i], moments[..i])
  {}

  // ---- whole runs ----

  datatype Event =
    | Put(c: char, ready: bool, arrival: Option<char>)
    | Irq(ready: bool, arrival: Option<char>)
    | Get

  // Everything that went in and out of the two rings so far.
  datatype Link = Link(rings: Rings, offered: seq<char>, sent: seq<char>, received: seq<char>, read: seq<char>)

  function ToSeq(a: Option<char>): seq<char> { if a == None then [] else [a.value] }

  function Step(l: Link, e: Event): Link {
    match e
    case Put(c, ready, arrival) =>
      var r := Stored(l.rings, c);
      l.(rings := Interrupted(r, ready, arrival), offered := l.offered + [c],
         sent := l.sent + OnTheWire(r, ready), received := l.received + ToSeq(arrival))
    case Irq(ready, arrival) =>
      l.(rings := Interrupted(l.rings, ready, arrival),
         sent := l.sent + OnTheWire(l.rings, ready), received := l.received + ToSeq(arrival))
    case Get =>
      if l.rings.rx == [] then l
      else l.(rings := l.rings.(rx := l.rings.rx[1..]), read := l.read + [l.rings.rx[0]])
  }

  function Run(l: Link, events: seq<Event>): Link
    decreases |events|
  {
    if events == [] then l else Step(Run(l, events[..|events| - 1]), events[|events| - 1])
  }

  // A record that starts with these rings.
  function From(r: Rings): Link { Link(r, [], [], [], []) }

  const QUIET := From(Rings([], 0, []))

  ghost predicate AlwaysReady(events: seq<Event>) {
    forall i :: 0 <= i < |events| && events[i].Put? ==> events[i].ready
  }

  /** With the transmitter ready for every byte put, an empty transmit ring stays empty and
      everything offered goes out, whatever arrives or is read meanwhile. */
  lemma {:induction false} ReadyPutsGoOut(l: Link, events: seq<Event>)
    requires l.rings.tx == [] && l.sent == l.offered && AlwaysReady(events)
    ensures Run(l, events).rings.tx == [] && Run(l, events).sent == Run(l, events).offered
    decreases |events|
  {
    if events != [] { ReadyPutsGoOut(l, events[..|events| - 1]); }
  }

  /** What a string puts into the ring is the string. */
  lemma {:induction false} PutsOffer(l: Link, s: seq<char>, moments: seq<Moment>)
    requires |moments| == |s|
    ensures Run(l, Puts(s, moments)).offered == l.offered + s
    decreases |s|
  {
    if s == [] {
      assert l.offered + s == l.offered;
    } else {
      var n := |s| - 1;
      PutsOffer(l, s[..n], moments[..n]);
      PutsOneMore(s, moments, n);
      assert s[..n + 1] == s && moments[..n + 1] == moments;
      assert l.offered + s[..n] + [s[n]] == l.offered + s;
    }
  }

  /** A string put while the transmitter is ready for each byte goes out whole. */
  lemma ReadyStringGoesOut(r: Rings, s: seq<char>, moments: seq<Moment>)
    requires r.tx == [] && |moments| == |s| && forall i :: 0 <= i < |s| ==> moments[i].ready
    ensures var l := Run(From(r), Puts(s, moments)); l.sent == s && l.rings.tx == []
  {
    ReadyPutsGoOut(From(r), Puts(s, moments));
    PutsOffer(From(r), s, moments);
    assert [] + s == s;
  }

  /** a is b with some bytes left out: each byte of a has its own place in b, in order. */
  ghost predicate Embeds(a: seq<char>, b: seq<char>, places: seq<nat>) {
    && |places| == |a|
    && (forall i :: 0 <= i < |a| ==> places[i] < |b| && b[places[i]] == a[i])
    && forall i, j :: 0 <= i < j < |a| ==> places[i] < places[j]
  }

  ghost predicate Subsequence(a: seq<char>, b: seq<char>) {
    exists places: seq<nat> :: Embeds(a, b, places)
  }

  lemma EmbedsBoth(a: seq<char>, b: seq<char>, c: char)
    requires Subsequence(a, b)
    ensures Subsequence(a, b + [c]) && Subsequence(a + [c], b + [c])
  {
    var f: seq<nat> :| Embeds(a, b, f);
    assert Embeds(a, b + [c], f);
    assert Embeds(a + [c], b + [c], f + [|b|]);
  }

  lemma EmbedsPrefix(a: seq<char>, x: seq<char>, b: seq<char>)
    requires Subsequence(a + x, b)
    ensures Subsequence(a, b)
  {
    var f: seq<nat> :| Embeds(a + x, b, f);
    assert forall i :: 0 <= i < |a| ==> (a + x)[i] == a[i];
    assert Embeds(a, b, f[..|a|]);
  }

  // What a ring still holds counts as not lost.
  ghost predicate TxInOrder(l: Link) { Subsequence(l.sent + l.rings.tx, l.offered) }
  ghost predicate RxInOrder(l: Link) { Subsequence(l.read + l.rings.rx, l.received) }

  // Handing the oldest pending byte over keeps the sequence of both together.
  lemma HandOver(done: seq<char>, p: seq<char>)
    requires p != []
    ensures done + [p[0]] + p[1..] == done + p
  {}

  lemma TransmitKeeps(l: Link, r: Rings, ready: bool)
    ensures l.sent + OnTheWire(r, ready) + Transmitted(r, ready).tx == l.sent + r.tx
  {}

  lemma StoreKeepsOrder(done: seq<char>, r: Rings, offered: seq<char>, c: char)
    requires Subsequence(done + r.tx, offered)
    ensures Subsequence(done + Stored(r, c).tx, offered + [c])
  {
    EmbedsBoth(done + r.tx, offered, c);
    if TxAccepts(r) {
      if |r.tx| == 255 {
        EmbedsPrefix(done, r.tx, offered + [c]);
        assert done + [] == done;
      } else {
        assert done + (r.tx + [c]) == done + r.tx + [c];
      }
    }
  }

  lemma ArrivalKeepsOrder(done: seq<char>, r: Rings, got: seq<char>, arrival: Option<char>)
    requires Subsequence(done + r.rx, got)
    ensures Subsequence(done + Received(r, arrival).rx, got + ToSeq(arrival))
  {
    if arrival == None {
      assert got + [] == got;
    } else {
      var c := arrival.value;
      EmbedsBoth(done + r.rx, got, c);
      if |r.rx| == 255 {
        EmbedsPrefix(done, r.rx, got + [c]);
        assert done + [] == done;
      } else {
        assert done + (r.rx + [c]) == done + r.rx + [c];
      }
    }
  }

  lemma StepKeepsOrder(l: Link, e: Event)
    requires TxInOrder(l) && RxInOrder(l)
    ensures TxInOrder(Step(l, e)) && RxInOrder(Step(l, e))
  {
    match e
    case Put(c, ready, arrival) =>
      StoreKeepsOrder(l.sent, l.rings, l.offered, c);
      TransmitKeeps(l, Stored(l.rings, c), ready);
      ArrivalKeepsOrder(l.read, l.rings, l.received, arrival);
    case Irq(ready, arrival) =>
      TransmitKeeps(l, l.rings, ready);
      ArrivalKeepsOrder(l.read, l.rings, l.received, arrival);
    case Get =>
      if l.rings.rx != [] { HandOver(l.read, l.rings.rx); }
  }

  /** In every run the bytes sent are an in-order subsequence of those offered and the
      bytes read one of those received, nothing duplicated, however the indices wrap. */
  lemma {:induction false} RunKeepsOrder(events: seq<Event>)
    ensures TxInOrder(Run(QUIET, events)) && RxInOrder(Run(QUIET, events))
    decreases |events|
  {
    if events == [] {
      assert Embeds(QUIET.sent + QUIET.rings.tx, QUIET.offered, []);
      assert Embeds(QUIET.read + QUIET.rings.rx, QUIET.received, []);
    } else {
      RunKeepsOrder(events[..|events| - 1]);
      StepKeepsOrder(Run(QUIET, events[..|events| - 1]), events[|events| - 1]);
    }
  }

  lemma NextIndex(n: nat)
    ensures (n % 256 + 1) % 256 == (n + 1) % 256
  {}

  lemma SendingCounts(r: Rings, ready: bool, sent: nat)
    requires r.txOut == sent % 256
    ensures Transmitted(r, ready).txOut == (sent + |OnTheWire(r, ready)|) % 256
  {
    NextIndex(sent);
  }

  lemma StepCountsSent(l: Link, e: Event)
    requires l.rings.txOut == |l.sent| % 256
    ensures Step(l, e).rings.txOut == |Step(l, e).sent| % 256
  {
    match e
    case Put(c, ready, arrival) => SendingCounts(Stored(l.rings, c), ready, |l.sent|);
    case Irq(ready, arrival) => SendingCounts(l.rings, ready, |l.sent|);
    case Get =>
  }

  /** The out index is the number of bytes sent, modulo 256. */
  lemma {:induction false} OutIndexCountsSent(events: seq<Event>)
    ensures Run(QUIET, events).rings.txOut == |Run(QUIET, events).sent| % 256
    decreases |events|
  {
    if events != [] {
      OutIndexCountsSent(events[..|events| - 1]);
      StepCountsSent(Run(QUIET, events[..|events| - 1]), events[|events| - 1]);
    }
  }

  // Every byte of the run was put behind neither 255 bytes not yet sent nor exactly one -
  // but one is no obstacle when 255 modulo 256 have been sent.
  ghost predicate NoTxLoss(events: seq<Event>)
    decreases |events|
  {
    events == [] ||
    (NoTxLoss(events[..|events| - 1]) &&
     (events[|events| - 1].Put? ==>
        var l := Run(QUIET, events[..|events| - 1]);
        var unsent := |l.offered| - |l.sent|;
        unsent != 255 && (unsent == 1 ==> |l.sent| % 256 == 255)))
  }

  // No byte of the run arrived behind 255 unread ones.
  ghost predicate NoRxLoss(events: seq<Event>)
    decreases |events|
  {
    events == [] ||
    (NoRxLoss(events[..|events| - 1]) &&
     (!events[|events| - 1].Get? && events[|events| - 1].arrival != None ==>
        var l := Run(QUIET, events[..|events| - 1]); |l.received| - |l.read| != 255))
  }

  // The bytes still accounted for, against the bytes put in: all of them or fewer.
  ghost predicate AllOrFewer(kept: seq<char>, all: seq<char>, lossless: bool) {
    if lossless then kept == all else |kept| < |all|
  }

  lemma {:induction false} TxAccount(events: seq<Event>)
    ensures var l := Run(QUIET, events); AllOrFewer(l.sent + l.rings.tx, l.offered, NoTxLoss(events))
    decreases |events|
  {
    if events != [] {
      var e, l := events[|events| - 1], Run(QUIET, events[..|events| - 1]);
      TxAccount(events[..|events| - 1]);
      OutIndexCountsSent(events[..|events| - 1]);
      if e.Put? {
        TransmitKeeps(l, Stored(l.rings, e.c), e.ready);
        assert l.sent + (l.rings.tx + [e.c]) == l.sent + l.rings.tx + [e.c];
      } else if e.Irq? {
        TransmitKeeps(l, l.rings, e.ready);
      }
    }
  }

  lemma {:induction false} RxAccount(events: seq<Event>)
    ensures var l := Run(QUIET, events); AllOrFewer(l.read + l.rings.rx, l.received, NoRxLoss(events))
    decreases |events|
  {
    if events != [] {
      var e, l := events[|events| - 1], Run(QUIET, events[..|events| - 1]);
      RxAccount(events[..|events| - 1]);
      if e.Get? {
        if l.rings.rx != [] { HandOver(l.read, l.rings.rx); }
      } else if e.arrival == None {
        assert l.received + [] == l.received;
      } else {
        assert l.read + (l.rings.rx + [e.arrival.value]) == l.read + l.rings.rx + [e.arrival.value];
      }
    }
  }

  /** Transmission is lossless exactly when no byte was put behind 255 unsent ones, nor
      behind exactly one unless 255 modulo 256 had been sent. */
  lemma TxLosslessExactly(events: seq<Event>)
    ensures var l := Run(QUIET, events); l.sent + l.rings.tx == l.offered <==> NoTxLoss(events)
  {
    TxAccount(events);
  }

  /** Reception is lossless exactly when no byte arrived behind 255 unread ones. */
  lemma RxLosslessExactly(events: seq<Event>)
    ensures var l := Run(QUIET, events); l.read + l.rings.rx == l.received <==> NoRxLoss(events)
  {
    RxAccount(events);
  }

  /** So nothing is lost when the transmitter is ready for every byte put ... */
  lemma ReadyPutsLoseNothing(events: seq<Event>)
    requires AlwaysReady(events)
    ensures NoTxLoss(events)
  {
    ReadyPutsGoOut(QUIET, events);
    TxLosslessExactly(events);
    assert Run(QUIET, events).sent + [] == Run(QUIET, events).sent;
  }

  /** ... nor when no more than 255 bytes arrive. */
  lemma {:induction false} ShortReceptionLosesNothing(events: seq<Event>)
    requires |Run(QUIET, events).received| <= 255
    ensures NoRxLoss(events)
    decreases |events|
  {
    if events != [] {
      var init := events[..|events| - 1];
      ShortReceptionLosesNothing(init);
      RxAccount(init);
    }
  }

  /** The ring holds one byte, not 255: two bytes offered to a quiet line whose transmitter
      is not ready leave only the first to be sent. */
  lemma SecondByteIsDropped(a: char, b: char)
    ensures var l := Run(QUIET, [Put(a, false, None), Put(b, false, None)]);
            l.offered == [a, b] && l.sent + l.rings.tx == [a]
  {
    var events := [Put(a, false, None), Put(b, false, None)];
    assert events[..1] == [Put(a, false, None)] && events[..1][..0] == [];
    assert Run(QUIET, events[..1]).rings == Rings([a], 0, []);
  }

  // ---- what the rings hold after any run ----

  /** What a put leaves pending when the line takes nothing: behind one byte it is dropped
      unless 255 modulo 256 have been sent, behind 255 everything is forgotten, else it
      joins the others. */
  lemma PutLeaves(events: seq<Event>, c: char)
    ensures var l := Run(QUIET, events);
            Run(QUIET, events + [Put(c, false, None)]).rings.tx ==
              if |l.rings.tx| == 1 && |l.sent| % 256 != 255 then l.rings.tx
              else if |l.rings.tx| == 255 then []
              else l.rings.tx + [c]
  {
    OutIndexCountsSent(events);
    assert (events + [Put(c, false, None)])[..|events|] == events;
  }

  // The bytes let into the transmit ring: all but those put behind exactly one pending byte
  // - counted modulo 256 - with other than 255 modulo 256 sent.
  ghost function Queued(events: seq<Event>): seq<char>
    decreases |events|
  {
    if events == [] then []
    else
      var init, e := events[..|events| - 1], events[|events| - 1];
      LetIn(Queued(init), |Run(QUIET, init).sent|, e)
  }

  ghost function LetIn(q: seq<char>, sent: nat, e: Event): seq<char> {
    if e.Put? && !((|q| - sent) % 256 == 1 && sent % 256 != 255) then q + [e.c] else q
  }

  // held is the end of all, behind those taken out modulo 256.
  ghost predicate Latest(held: seq<char>, all: seq<char>, out: nat) {
    |held| == (|all| - out) % 256 && |held| <= |all| && held == all[|all| - |held|..]
  }

  lemma LatestIn(held: seq<char>, all: seq<char>, out: nat, c: char)
    requires Latest(held, all, out)
    ensures Latest(if |held| == 255 then [] else held + [c], all + [c], out)
  {
    var n := |all| - out;
    assert (n + 1) % 256 == if n % 256 == 255 then 0 else n % 256 + 1;
  }

  lemma LatestOut(held: seq<char>, all: seq<char>, out: nat)
    requires Latest(held, all, out) && held != []
    ensures Latest(held[1..], all, out + 1)
  {
    var n := |all| - out;
    assert n % 256 > 0 && (n - 1) % 256 == n % 256 - 1;
  }

  /** In every run the transmit ring holds the latest of the bytes let in, as many as were
      not sent yet modulo 256. */
  lemma {:induction false} TxHoldsTheLatest(events: seq<Event>)
    ensures Latest(Run(QUIET, events).rings.tx, Queued(events), |Run(QUIET, events).sent|)
    decreases |events|
  {
    if events != [] {
      var init, e := events[..|events| - 1], events[|events| - 1];
      TxHoldsTheLatest(init);
      OutIndexCountsSent(init);
      StepHoldsTheLatest(Run(QUIET, init), Queued(init), e);
    }
  }

  lemma StoringHoldsTheLatest(r: Rings, q: seq<char>, sent: nat, e: Event)
    requires e.Put? && Latest(r.tx, q, sent) && r.txOut == sent % 256
    ensures Latest(Stored(r, e.c).tx, LetIn(q, sent, e), sent)
  {
    LatestIn(r.tx, q, sent, e.c);
  }

  lemma StepHoldsTheLatest(l: Link, q: seq<char>, e: Event)
    requires Latest(l.rings.tx, q, |l.sent|) && l.rings.txOut == |l.sent| % 256
    ensures Latest(Step(l, e).rings.tx, LetIn(q, |l.sent|, e), |Step(l, e).sent|)
  {
    match e
    case Put(c, ready, arrival) =>
      StoringHoldsTheLatest(l.rings, q, |l.sent|, e);
      LatestSent(Stored(l.rings, c), LetIn(q, |l.sent|, e), |l.sent|, ready);
    case Irq(ready, arrival) => LatestSent(l.rings, q, |l.sent|, ready);
    case Get =>
  }

  lemma LatestSent(r: Rings, q: seq<char>, sent: nat, ready: bool)
    requires Latest(r.tx, q, sent)
    ensures Latest(Transmitted(r, ready).tx, q, sent + |OnTheWire(r, ready)|)
  {
    if ready && |r.tx| > 0 { LatestOut(r.tx, q, sent); }
  }

  /** ... and the receive ring the latest of the bytes received, as many as were not read
      yet modulo 256. */
  lemma {:induction false} RxHoldsTheLatest(events: seq<Event>)
    ensures var l := Run(QUIET, events); Latest(l.rings.rx, l.received, |l.read|)
    decreases |events|
  {
    if events != [] {
      var init, e := events[..|events| - 1], events[|events| - 1];
      var l := Run(QUIET, init);
      RxHoldsTheLatest(init);
      if e.Get? {
        if l.rings.rx != [] { LatestOut(l.rings.rx, l.received, |l.read|); }
      } else if e.arrival == None {
        assert l.received + [] == l.received;
      } else {
        LatestIn(l.rings.rx, l.received, |l.read|, e.arrival.value);
      }
    }
  }
}
