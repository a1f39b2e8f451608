/** The DataFlash chip: its memories, what each operation does to them, and the
    serial state machine that decodes the bytes a driver shifts in. */
module Chip {
  import opened Words

  const FLASH_PAGES := 8192
  const PAGE_BYTES := 528

  type Page = s: seq<byte> | |s| == PAGE_BYTES witness seq(PAGE_BYTES, _ => 0xFF)

  datatype Which = Buffer1 | Buffer2

  // Main memory, the two SRAM buffers, and the erase/program cycles each page has seen.
  datatype Memory = Memory(main: seq<Page>, buf1: Page, buf2: Page, wear: seq<nat>)
  {
    ghost predicate Valid() { |main| == FLASH_PAGES && |wear| == FLASH_PAGES }

    function Buffer(w: Which): Page { if w.Buffer1? then buf1 else buf2 }

    function WithBuffer(w: Which, p: Page): Memory {
      if w.Buffer1? then this.(buf1 := p) else this.(buf2 := p)
    }
  }

  // ---- the effect of each operation on the memories ----

  function StoreAt(b: Page, offset: nat, data: seq<byte>): Page
    requires offset + |data| <= PAGE_BYTES
  {
    b[..offset] + data + b[offset + |data|..]
  }

  function StoreBuffer(m: Memory, w: Which, offset: nat, data: seq<byte>): Memory
    requires offset + |data| <= PAGE_BYTES
  {
    m.WithBuffer(w, StoreAt(m.Buffer(w), offset, data))
  }

  function Program(m: Memory, w: Which, page: nat): (r: Memory)
    requires m.Valid() && page < FLASH_PAGES
    ensures r.Valid()
  {
    m.(main := m.main[page := m.Buffer(w)], wear := m.wear[page := m.wear[page] + 1])
  }

  function LoadBuffer(m: Memory, w: Which, page: nat): Memory
    requires m.Valid() && page < FLASH_PAGES
  {
    m.WithBuffer(w, m.main[page])
  }

  // ---- the serial state machine, with the opcodes of the AT45DB family ----

  /** busy counts the byte times until the running job is over; delay gives every job
      its own finite length; frame holds the bytes received since chip select fell;
      violated records that a command was started while a job was running. */
  datatype Device = Device(
    mem: Memory, busy: nat, selected: bool, frame: seq<byte>, violated: bool,
    delay: nat -> nat, jobs: nat)
  {
    ghost predicate Valid() { mem.Valid() }
    // Between frames, and no command has ever been started while a job was running.
    ghost predicate Idle() { Valid() && !selected && frame == [] && !violated }
  }

  // The 24 address bits behind the opcode: 1 unused, 13 of page, 10 of byte offset.
  function FramePage(f: seq<byte>): nat
    requires |f| >= 4
  {
    (f[1] as int % 128) * 64 + f[2] as int / 4
  }

  function FrameOffset(f: seq<byte>): nat
    requires |f| >= 4
  {
    (f[2] as int % 4) * 256 + f[3] as int
  }

  // What a byte shifted in behind a buffer-write header does: store and step, wrapping.
  function Absorb(m: Memory, f: seq<byte>, b: byte): (r: Memory)
    requires m.Valid()
    ensures r.Valid() && r.main == m.main && r.wear == m.wear
  {
    if |f| < 4 then m
    else
      var at := (FrameOffset(f) + |f| - 4) % PAGE_BYTES;
      if f[0] == 0x84 then m.(buf1 := m.buf1[at := b])
      else if f[0] == 0x87 then m.(buf2 := m.buf2[at := b])
      else m
  }

  // The byte shifted out while the byte behind frame f is shifted in.
  function Answer(m: Memory, busy: nat, f: seq<byte>): byte
    requires m.Valid()
  {
    if |f| == 0 then 0xFF
    else if f[0] == 0xD7 then (if busy == 0 then 0xB4 else 0x34)
    else if f[0] == 0xD2 && |f| >= 8 then
      m.main[FramePage(f)][(FrameOffset(f) + |f| - 8) % PAGE_BYTES]
    else if f[0] == 0xD4 && |f| >= 5 then
      m.buf1[(FrameOffset(f) + |f| - 5) % PAGE_BYTES]
    else if f[0] == 0xD6 && |f| >= 5 then
      m.buf2[(FrameOffset(f) + |f| - 5) % PAGE_BYTES]
    else 0xFF
  }

  function Select(d: Device): Device { d.(selected := true, frame := []) }

  function Shift(d: Device, b: byte): (r: Device)
    requires d.Valid()
    ensures r.Valid()
  {
    if !d.selected then d
    else
      d.(mem := Absorb(d.mem, d.frame, b),
         busy := if d.busy > 0 then d.busy - 1 else 0,
         frame := d.frame + [b],
         violated := d.violated || (d.frame == [] && d.busy > 0 && b != 0xD7))
  }

  function Reply(d: Device, b: byte): byte
    requires d.Valid()
  {
    if !d.selected then 0xFF else Answer(d.mem, d.busy, d.frame)
  }

  // Chip select rises: a complete transfer or program command starts its job.
  function Deselect(d: Device): (r: Device)
    requires d.Valid()
    ensures r.Valid()
  {
    var e := d.(selected := false, frame := []);
    if !d.selected || |d.frame| != 4 then e
    else if d.frame[0] == 0x83 then StartJob(e, Program(d.mem, Buffer1, FramePage(d.frame)))
    else if d.frame[0] == 0x86 then StartJob(e, Program(d.mem, Buffer2, FramePage(d.frame)))
    else if d.frame[0] == 0x53 then StartJob(e, LoadBuffer(d.mem, Buffer1, FramePage(d.frame)))
    else if d.frame[0] == 0x55 then StartJob(e, LoadBuffer(d.mem, Buffer2, FramePage(d.frame)))
    else e
  }

  function StartJob(d: Device, m: Memory): Device {
    d.(mem := m, busy := d.delay(d.jobs), jobs := d.jobs + 1)
  }

  /** The wire between processor and chip: one call of Transfer is one byte exchanged. */
  class SpiBus {
    var dev: Device

    constructor (d: Device)
      ensures dev == d
    {
      dev := d;
    }

    method ChipSelectOn()
      modifies this
      ensures dev == Select(old(dev))
    {
      dev := Select(dev);
    }

    method ChipSelectOff()
      requires dev.Valid()
      modifies this
      ensures dev == Deselect(old(dev))
    {
      dev := Deselect(dev);
    }

    method Transfer(b: byte) returns (r: byte)
      requires dev.Valid()
      modifies this
      ensures dev == Shift(old(dev), b) && r == Reply(old(dev), b)
    {
      r := Reply(dev, b);
      dev := Shift(dev, b);
    }
  }
}
