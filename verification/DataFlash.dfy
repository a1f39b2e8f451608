/** The DataFlash driver: byte frames on the bus, each proved to have exactly the
    memory effect its name promises. */
module DataFlash {
  import opened Words
  import opened Chip

  // A client's share of the chip: Size pages from FirstPage on.
  datatype Token = Token(first: u16, size: u16)
  {
    // The share lies on the chip.
    ghost predicate Fits() { first + size <= FLASH_PAGES }
  }

  predicate TokenCheck(tk: Token, page: u16) { page < tk.size }

  // The opcodes the driver sends.
  const STATUS_REGISTER: byte := 0xD7
  const MAIN_MEMORY_PAGE_READ: byte := 0xD2
  const BUFFER_1_WRITE: byte := 0x84
  const BUFFER_2_WRITE: byte := 0x87
  const BUFFER_1_READ: byte := 0xD4
  const BUFFER_2_READ: byte := 0xD6
  const B1PROGWITHERASE: byte := 0x83
  const B2PROGWITHERASE: byte := 0x86
  const MM_PAGE_TO_B1_XFER: byte := 0x53
  const MM_PAGE_TO_B2_XFER: byte := 0x55

  // ---- what each call means for the memories, page numbers relative to the token ----

  function BufferWritten(tk: Token, m: Memory, page: u16, offset: nat, w: Which, data: seq<byte>): (r: Memory)
    requires offset + |data| <= PAGE_BYTES
    ensures m.Valid() ==> r.Valid()
  {
    if TokenCheck(tk, page) then StoreBuffer(m, w, offset, data) else m
  }

  function Programmed(tk: Token, m: Memory, page: u16, w: Which): (r: Memory)
    requires tk.Fits() && m.Valid()
    ensures r.Valid()
  {
    if TokenCheck(tk, page) then Program(m, w, tk.first + page) else m
  }

  function PageInto(tk: Token, m: Memory, page: u16, offset: nat, size: nat, dest: seq<byte>): (r: seq<byte>)
    requires tk.Fits() && m.Valid() && offset + size <= PAGE_BYTES && size <= |dest|
    ensures |r| == |dest|
  {
    if TokenCheck(tk, page) then m.main[tk.first + page][offset..offset + size] + dest[size..] else dest
  }

  // ---- the frames ----

  function PageHigh(page: nat): byte { Low8(page / 64) }
  function PageLow(page: nat, offset: nat): byte { Low8(BitOr(page * 4, offset / 256)) }

  // The header of a buffer frame; its page bits are don't-care.
  function BufferHeader(op: byte, offset: nat): seq<byte> { [op, 0, Low8(offset / 256), Low8(offset)] }

  lemma ByteOf(a: nat, r: nat)
    requires r < 256
    ensures Low8(256 * a + r) == r
  {}

  lemma AddressFields(page: nat, offset: nat)
    requires page < FLASH_PAGES && offset < 1024
    ensures PageHigh(page) == page / 64 && PageLow(page, offset) == page % 64 * 4 + offset / 256
  {
    PowersOfTwo();
    BitOrDisjoint(page, offset / 256, 2);
    var a, b, q := page / 64, page % 64, offset / 256;
    assert page * 4 + q == 256 * a + (b * 4 + q);
    ByteOf(a, b * 4 + q);
    ByteOf(0, a);
  }

  /** Page and offset packed into three address bytes come back out of the chip's decoder. */
  lemma HeaderDecodes(op: byte, page: nat, offset: nat, f: seq<byte>)
    requires page < FLASH_PAGES && offset < 1024
    requires |f| >= 4 && f[..4] == [op, PageHigh(page), PageLow(page, offset), Low8(offset)]
    ensures f[0] == op && FramePage(f) == page && FrameOffset(f) == offset
  {
    assert f[0] == f[..4][0] && f[1] == f[..4][1] && f[2] == f[..4][2] && f[3] == f[..4][3];
    AddressFields(page, offset);
    FieldsDecode(page, offset, page / 64, page % 64, offset / 256);
  }

  lemma FieldsDecode(page: nat, offset: nat, a: nat, b: nat, q: nat)
    requires page < FLASH_PAGES && offset < 1024 && a == page / 64 && b == page % 64 && q == offset / 256
    ensures a % 128 * 64 + (b * 4 + q) / 4 == page
    ensures (b * 4 + q) % 4 * 256 + Low8(offset) == offset
  {
    assert (b * 4 + q) / 4 == b && (b * 4 + q) % 4 == q;
  }

  // Clocking out one more byte of a main memory page read.
  lemma ReadsNextByte(d: Device, page: nat, offset: nat, k: nat)
    requires d.Valid() && d.selected && d.busy == 0 && page < FLASH_PAGES && offset + k < PAGE_BYTES
    requires |d.frame| == 8 + k
    requires d.frame[..4] == [MAIN_MEMORY_PAGE_READ, PageHigh(page), PageLow(page, offset), Low8(offset)]
    ensures Reply(d, 0) == d.mem.main[page][offset + k]
    ensures Shift(d, 0) == d.(frame := d.frame + [0])
  {
    HeaderDecodes(MAIN_MEMORY_PAGE_READ, page, offset, d.frame);
  }

  // Clocking out one more byte of an SRAM buffer.
  lemma BufferReadsNextByte(d: Device, w: Which, offset: nat, k: nat)
    requires d.Valid() && d.selected && d.busy == 0 && offset + k < PAGE_BYTES
    requires |d.frame| == 5 + k
    requires d.frame[..4] == BufferHeader(if w == Buffer1 then BUFFER_1_READ else BUFFER_2_READ, offset)
    ensures Reply(d, 0) == d.mem.Buffer(w)[offset + k]
    ensures Shift(d, 0) == d.(frame := d.frame + [0])
  {
    BufferHeaderDecodes(d.frame[0], offset, d.frame);
  }

  // A byte behind a buffer-write header lands at the next place of that buffer.
  lemma AbsorbsAt(m: Memory, f: seq<byte>, w: Which, at: nat, b: byte)
    requires m.Valid() && |f| >= 4 && f[0] == (if w == Buffer1 then BUFFER_1_WRITE else BUFFER_2_WRITE)
    requires at < PAGE_BYTES && at == FrameOffset(f) + |f| - 4
    ensures Absorb(m, f, b) == m.WithBuffer(w, m.Buffer(w)[at := b])
  {}

  // Clocking one more byte into an SRAM buffer.
  lemma BufferStoresNextByte(d: Device, m: Memory, w: Which, offset: nat, s: seq<byte>, k: nat)
    requires m.Valid() && d.Valid() && d.selected && d.busy == 0 && k < |s| && offset + |s| <= PAGE_BYTES
    requires |d.frame| == 4 + k && d.mem == StoreBuffer(m, w, offset, s[..k])
    requires d.frame[..4] == BufferHeader(if w == Buffer1 then BUFFER_1_WRITE else BUFFER_2_WRITE, offset)
    ensures Shift(d, s[k]) == d.(frame := d.frame + [s[k]], mem := StoreBuffer(m, w, offset, s[..k + 1]))
  {
    BufferHeaderDecodes(d.frame[0], offset, d.frame);
    AbsorbsAt(d.mem, d.frame, w, offset + k, s[k]);
    StoreOneMore(m.Buffer(w), offset, s, k);
  }

  lemma StoreOneMore(b: Page, offset: nat, s: seq<byte>, k: nat)
    requires k < |s| && offset + |s| <= PAGE_BYTES
    ensures StoreAt(b, offset, s[..k])[offset + k := s[k]] == StoreAt(b, offset, s[..k + 1])
  {}

  method IsFlashReady(bus: SpiBus) returns (ready: bool)
    requires bus.dev.Idle()
    modifies bus
    ensures bus.dev == old(bus.dev).(busy := bus.dev.busy)
    ensures if ready then bus.dev.busy == 0 else bus.dev.busy < old(bus.dev.busy)
  {
    bus.ChipSelectOn();
    var status := bus.Transfer(STATUS_REGISTER);
    status := bus.Transfer(0xFF);
    bus.ChipSelectOff();
    ready := status as int / 128 % 2 == 1;
  }

  // Polls the status until the running job is over.
  method WaitReady(bus: SpiBus)
    requires bus.dev.Idle()
    modifies bus
    ensures bus.dev == old(bus.dev).(busy := 0)
  {
    var ready := IsFlashReady(bus);
    while !ready
      invariant bus.dev == old(bus.dev).(busy := bus.dev.busy)
      invariant ready ==> bus.dev.busy == 0
      decreases !ready, bus.dev.busy
    {
      ready := IsFlashReady(bus);
    }
  }

  method SendHeader(bus: SpiBus, op: byte, b1: byte, b2: byte, b3: byte)
    requires bus.dev.Idle() && bus.dev.busy == 0
    modifies bus
    ensures bus.dev == old(bus.dev).(selected := true, frame := [op, b1, b2, b3])
  {
    bus.ChipSelectOn();
    var _ := bus.Transfer(op);
    var _ := bus.Transfer(b1);
    var _ := bus.Transfer(b2);
    var _ := bus.Transfer(b3);
    assert bus.dev.frame == [op, b1, b2, b3];
  }

  // k bytes of a frame with this header have followed it, the rest of the device as it was.
  ghost predicate Streaming(bus: SpiBus, was: Device, header: seq<byte>, lead: nat, k: nat)
    reads bus
  {
    && was.Valid() && |header| == 4
    && bus.dev == was.(busy := 0, selected := true, frame := bus.dev.frame)
    && |bus.dev.frame| == lead + k && lead >= 4 && bus.dev.frame[..4] == header
  }

  // The first k bytes of dest are the given ones, the others as they were.
  ghost predicate FilledTo(dest: array<byte>, was: seq<byte>, bytes: seq<byte>, k: nat)
    reads dest
  {
    && k <= |bytes| <= |was| == dest.Length
    && (forall j :: 0 <= j < k ==> dest[j] == bytes[j])
    && forall j :: k <= j < dest.Length ==> dest[j] == was[j]
  }

  // Raising chip select behind a read leaves the device as it was.
  lemma StreamEnds(bus: SpiBus, was: Device, header: seq<byte>, lead: nat, k: nat)
    requires Streaming(bus, was, header, lead, k) && was.Idle()
    requires header[0] in {MAIN_MEMORY_PAGE_READ, BUFFER_1_READ, BUFFER_2_READ}
    ensures Deselect(bus.dev) == was.(busy := 0)
  {
    assert bus.dev.frame[0] == bus.dev.frame[..4][0];
  }

  // The four don't-care bytes of a page read.
  method SendFour(bus: SpiBus, ghost was: Device, ghost header: seq<byte>)
    requires Streaming(bus, was, header, 4, 0) && header[0] == MAIN_MEMORY_PAGE_READ
    modifies bus
    ensures Streaming(bus, was, header, 8, 0)
  {
    var _ := bus.Transfer(0);
    var _ := bus.Transfer(0);
    var _ := bus.Transfer(0);
    var _ := bus.Transfer(0);
  }

  // The next byte of a read clocked out and stored.
  method ClockIn(bus: SpiBus, ghost was: Device, ghost header: seq<byte>, ghost lead: nat, ghost d0: seq<byte>,
                 ghost bytes: seq<byte>, dest: array<byte>, k: nat)
    requires Streaming(bus, was, header, lead, k) && FilledTo(dest, d0, bytes, k) && k < |bytes|
    requires Reply(bus.dev, 0) == bytes[k] && Shift(bus.dev, 0) == bus.dev.(frame := bus.dev.frame + [0])
    modifies bus, dest
    ensures Streaming(bus, was, header, lead, k + 1) && FilledTo(dest, d0, bytes, k + 1)
  {
    dest[k] := bus.Transfer(0);
  }

  lemma FilledMeans(dest: array<byte>, was: seq<byte>, bytes: seq<byte>)
    requires FilledTo(dest, was, bytes, |bytes|)
    ensures dest[..] == bytes + was[|bytes|..]
  {}

  method ReadPageDirect(bus: SpiBus, tk: Token, page: u16, offset: u16, size: u16, dest: array<byte>)
    requires bus.dev.Idle() && tk.Fits() && offset + size <= PAGE_BYTES && size <= dest.Length
    modifies bus, dest
    ensures bus.dev == if page < tk.size then old(bus.dev).(busy := 0) else old(bus.dev)
    ensures dest[..] == if page < tk.size
                        then old(bus.dev.mem.main[tk.first + page])[offset..offset + size] + old(dest[..])[size..]
                        else old(dest[..])
  {
    if !TokenCheck(tk, page) { return; }
    ghost var was, d0 := bus.dev, dest[..];
    WaitReady(bus);
    var at := page + tk.first;
    SendHeader(bus, MAIN_MEMORY_PAGE_READ, PageHigh(at), PageLow(at, offset), Low8(offset));
    ghost var header := bus.dev.frame;
    SendFour(bus, was, header);
    ghost var bytes := was.mem.main[at][offset..offset + size];
    for i := offset to offset + size
      invariant Streaming(bus, was, header, 8, i - offset)
      invariant FilledTo(dest, d0, bytes, i - offset)
    {
      ReadsNextByte(bus.dev, at, offset, i - offset);
      ClockIn(bus, was, header, 8, d0, bytes, dest, i - offset);
    }
    FilledMeans(dest, d0, bytes);
    StreamEnds(bus, was, header, 8, size);
    bus.ChipSelectOff();
  }

  method ReadFlashToBuffer(bus: SpiBus, tk: Token, page: u16, w: Which)
    requires bus.dev.Idle() && tk.Fits()
    modifies bus
    ensures bus.dev == if page < tk.size
                       then StartJob(old(bus.dev), LoadBuffer(old(bus.dev.mem), w, tk.first + page))
                       else old(bus.dev)
  {
    if !TokenCheck(tk, page) { return; }
    WaitReady(bus);
    var at := page + tk.first;
    SendHeader(bus, if w == Buffer1 then MM_PAGE_TO_B1_XFER else MM_PAGE_TO_B2_XFER,
               PageHigh(at), PageLow(at, 0), 0);
    HeaderDecodes(bus.dev.frame[0], at, 0, bus.dev.frame);
    bus.ChipSelectOff();
  }

  method WriteBufferToFlash(bus: SpiBus, tk: Token, page: u16, w: Which)
    requires bus.dev.Idle() && tk.Fits()
    modifies bus
    ensures bus.dev == if page < tk.size
                       then StartJob(old(bus.dev), Program(old(bus.dev.mem), w, tk.first + page))
                       else old(bus.dev)
  {
    if !TokenCheck(tk, page) { return; }
    WaitReady(bus);
    var at := page + tk.first;
    SendHeader(bus, if w == Buffer1 then B1PROGWITHERASE else B2PROGWITHERASE,
               PageHigh(at), PageLow(at, 0), 0);
    HeaderDecodes(bus.dev.frame[0], at, 0, bus.dev.frame);
    bus.ChipSelectOff();
  }

  method BufferRead(bus: SpiBus, tk: Token, page: u16, offset: u16, size: u16, w: Which, dest: array<byte>)
    requires bus.dev.Idle() && tk.Fits() && offset + size <= PAGE_BYTES && size <= dest.Length
    modifies bus, dest
    ensures bus.dev == if page < tk.size then old(bus.dev).(busy := 0) else old(bus.dev)
    ensures dest[..] == if page < tk.size
                        then old(bus.dev.mem).Buffer(w)[offset..offset + size] + old(dest[..])[size..]
                        else old(dest[..])
  {
    if !TokenCheck(tk, page) { return; }
    ghost var was, d0 := bus.dev, dest[..];
    WaitReady(bus);
    var op := if w == Buffer1 then BUFFER_1_READ else BUFFER_2_READ;
    SendHeader(bus, op, 0, Low8(offset / 256), Low8(offset));
    ghost var header := bus.dev.frame;
    var _ := bus.Transfer(0);
    ghost var bytes := was.mem.Buffer(w)[offset..offset + size];
    for i := offset to offset + size
      invariant Streaming(bus, was, header, 5, i - offset)
      invariant FilledTo(dest, d0, bytes, i - offset)
    {
      BufferReadsNextByte(bus.dev, w, offset, i - offset);
      ClockIn(bus, was, header, 5, d0, bytes, dest, i - offset);
    }
    FilledMeans(dest, d0, bytes);
    StreamEnds(bus, was, header, 5, size);
    bus.ChipSelectOff();
  }

  lemma BufferHeaderDecodes(op: byte, offset: nat, f: seq<byte>)
    requires offset < 1024
    requires |f| >= 4 && f[..4] == BufferHeader(op, offset)
    ensures f[0] == op && FrameOffset(f) == offset
  {}

  // k bytes of data have gone into the buffer.
  ghost predicate Storing(bus: SpiBus, was: Device, w: Which, offset: nat, data: seq<byte>, k: nat)
    reads bus
  {
    && was.Valid() && k <= |data| && offset + |data| <= PAGE_BYTES
    && bus.dev == was.(busy := 0, selected := true, frame := bus.dev.frame,
         mem := StoreBuffer(was.mem, w, offset, data[..k]))
    && |bus.dev.frame| == 4 + k
    && bus.dev.frame[..4] == BufferHeader(if w == Buffer1 then BUFFER_1_WRITE else BUFFER_2_WRITE, offset)
  }

  // Behind the header nothing is stored yet.
  lemma StoreBegins(bus: SpiBus, was: Device, w: Which, offset: nat, data: seq<byte>)
    requires was.Valid() && offset + |data| <= PAGE_BYTES
    requires bus.dev == was.(busy := 0, selected := true,
      frame := BufferHeader(if w == Buffer1 then BUFFER_1_WRITE else BUFFER_2_WRITE, offset))
    ensures Storing(bus, was, w, offset, data, 0)
  {
    assert StoreBuffer(was.mem, w, offset, data[..0]) == was.mem;
    assert bus.dev.frame[..4] == bus.dev.frame;
  }

  // Raising chip select behind the last byte leaves the buffer written.
  lemma StoreEnds(bus: SpiBus, was: Device, w: Which, offset: nat, data: seq<byte>)
    requires Storing(bus, was, w, offset, data, |data|) && was.Idle()
    ensures Deselect(bus.dev) == was.(busy := 0, mem := StoreBuffer(was.mem, w, offset, data))
  {
    assert bus.dev.frame[0] == bus.dev.frame[..4][0];
    assert data[..|data|] == data;
  }

  // One byte of data clocked into the buffer.
  method WriteOneByte(bus: SpiBus, ghost was: Device, ghost w: Which, ghost offset: nat, ghost data: seq<byte>,
                      b: byte, ghost k: nat)
    requires Storing(bus, was, w, offset, data, k) && k < |data| && b == data[k]
    modifies bus
    ensures Storing(bus, was, w, offset, data, k + 1)
  {
    BufferStoresNextByte(bus.dev, was.mem, w, offset, data, k);
    var _ := bus.Transfer(b);
  }

  method BufferWrite(bus: SpiBus, tk: Token, page: u16, offset: u16, size: u16, w: Which, src: array<byte>)
    requires bus.dev.Idle() && offset + size <= PAGE_BYTES && size <= src.Length
    modifies bus
    ensures bus.dev == if page < tk.size
                       then old(bus.dev).(busy := 0,
                         mem := StoreBuffer(old(bus.dev.mem), w, offset, src[..size]))
                       else old(bus.dev)
  {
    if !TokenCheck(tk, page) { return; }
    ghost var was, data := bus.dev, src[..size];
    WaitReady(bus);
    SendHeader(bus, if w == Buffer1 then BUFFER_1_WRITE else BUFFER_2_WRITE, 0, Low8(offset / 256), Low8(offset));
    StoreBegins(bus, was, w, offset, data);
    for i := offset to offset + size
      invariant Storing(bus, was, w, offset, data, i - offset)
    {
      WriteOneByte(bus, was, w, offset, data, src[i - offset], i - offset);
    }
    StoreEnds(bus, was, w, offset, data);
    bus.ChipSelectOff();
  }
}
