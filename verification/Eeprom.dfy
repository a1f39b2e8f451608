/** The EEPROM emulation as the firmware runs it: slots updated in place, talking to the
    chip through the driver. Every method is proved to do what CacheModel says. */
module Eeprom {
  import opened Words
  import opened Chip
  import opened DataFlash
  import opened CacheModel
  import opened CacheRefinement
  import opened FlatMemory
  import opened CacheRuns
  import opened CacheBytes

  class CachePage {
    var page: u16
    var dirty: bool
    var count: nat
    const buf: array<byte>

    // As memset leaves it: every byte 0xFF.
    constructor ()
      ensures Holds(FreshSlot()) && Erased() && fresh(buf)
    {
      page, dirty, count := NO_PAGE, true, PAGE_COUNT_MAX;
      buf := new byte[EE_PAGE_SIZE](_ => 0xFF);
      new;
      assert buf[..] == seq(EE_PAGE_SIZE, _ => 0xFF);
    }

    // Every bit of the 16-bit tag, the dirty flag, the 15-bit age and the bytes is set.
    ghost predicate Erased()
      reads this, buf
    {
      page == 0xFFFF && dirty && count == 0x7FFF && buf.Length == 512 && forall i :: 0 <= i < 512 ==> buf[i] == 0xFF
    }

    ghost predicate Holds(x: Slot)
      reads this, buf
    {
      page == x.page && dirty == x.dirty && count == x.count && buf[..] == x.buf
    }
  }

  class Eeprom {
    const tk: Token
    const bus: SpiBus
    const ext: seq<CachePage>
    ghost var slots: seq<Slot>
    ghost const Repr: set<object>

    // The slots on the heap are the ones the model speaks of, and the bus is idle.
    ghost predicate Linked()
      reads this, bus, Repr
    {
      && Apart()
      && bus.dev.Idle()
      && State(tk, slots, bus.dev.mem).Wf()
      && |slots| == |ext|
      && forall i :: 0 <= i < |ext| ==> ext[i].Holds(slots[i])
    }

    ghost predicate Valid()
      reads this, bus, Repr
    {
      Linked() && Now().Inv()
    }

    // Every slot and every buffer is an object of its own.
    ghost predicate Apart() {
      && this !in Repr && bus !in Repr && this as object != bus
      && (forall i :: 0 <= i < |ext| ==> ext[i] in Repr && ext[i].buf in Repr && ext[i] as object != ext[i].buf)
      && (forall i, j :: 0 <= i < |ext| && 0 <= j < |ext| ==> ext[i] as object != ext[j].buf)
      && (forall i, j :: 0 <= i < j < |ext| ==> ext[i] != ext[j] && ext[i].buf != ext[j].buf)
    }

    ghost function Now(): (s: State)
      requires Linked()
      reads this, bus, Repr
      ensures s.Wf()
    {
      State(tk, slots, bus.dev.mem)
    }

    /** EE_Init: n slots of 0xFF bytes in front of the token's pages. */
    constructor (tk: Token, bus: SpiBus, n: byte)
      requires tk.Fits() && bus.dev.Idle() && n >= 1
      ensures Valid() && fresh(Repr) && this.tk == tk && this.bus == bus
      ensures Now() == Init(tk, n, bus.dev.mem) && |ext| == n
      ensures forall i :: 0 <= i < n ==> ext[i].Erased()
    {
      var pages: seq<CachePage> := [];
      ghost var repr: set<object> := {};
      while |pages| < n
        invariant |pages| <= n
        invariant fresh(repr) && forall o :: o in repr ==> o is CachePage || o is array<byte>
        invariant forall i :: 0 <= i < |pages| ==>
                    pages[i] in repr && pages[i].buf in repr && pages[i].Holds(FreshSlot()) && pages[i].Erased()
        invariant forall i, j :: 0 <= i < |pages| && 0 <= j < |pages| ==> pages[i] as object != pages[j].buf
        invariant forall i, j :: 0 <= i < j < |pages| ==> pages[i] != pages[j] && pages[i].buf != pages[j].buf
      {
        var p := new CachePage();
        pages := pages + [p];
        repr := repr + {p, p.buf};
      }
      this.tk, this.bus, ext := tk, bus, pages;
      slots := seq(n, _ => FreshSlot());
      Repr := repr;
      new;
      FreshIsUsable(tk, n, bus.dev.mem);
    }

    method AgeCache()
      requires Linked()
      modifies this`slots, Repr
      ensures Linked() && Now() == old(Now()).(slots := Age(old(slots)))
    {
      ghost var was := slots;
      for i := 0 to |ext|
        invariant |slots| == |was| == |ext| && Apart()
        invariant forall k :: 0 <= k < i ==> slots[k] == AgeSlot(was[k])
        invariant forall k :: i <= k < |ext| ==> slots[k] == was[k]
        invariant forall k :: 0 <= k < |ext| ==> ext[k].Holds(slots[k])
      {
        if ext[i].count < PAGE_COUNT_MAX {
          ext[i].count := ext[i].count + 1;
          slots := slots[i := slots[i].(count := slots[i].count + 1)];
        }
      }
      assert slots == Age(was);
    }

    // One scan finds the page or else the first slot of greatest age.
    method Scan(page: u16) returns (at: nat, hit: bool)
      requires Linked()
      ensures at < |ext|
      ensures hit <==> Find(slots, page) < |slots|
      ensures at == if hit then Find(slots, page) else Oldest(slots)
    {
      assert forall k :: 0 <= k < |ext| ==> ext[k].page == slots[k].page && ext[k].count == slots[k].count;
      var oldest := 0;
      for i := 0 to |ext|
        invariant oldest < |ext|
        invariant forall k :: 0 <= k < i ==> slots[k].page != page && slots[k].count <= slots[oldest].count
        invariant forall k :: 0 <= k < oldest ==> slots[k].count < slots[oldest].count
      {
        if ext[i].page == page {
          return i, true;
        }
        if ext[i].count > ext[oldest].count {
          oldest := i;
        }
      }
      return oldest, false;
    }

    // The page read into a slot's buffer, a dirty victim parked in buffer 2 meanwhile.
    method LoadPage(ptr: CachePage, page: u16, ghost x: Slot)
      requires tk.Fits() && bus.dev.Idle() && ptr.Holds(x)
      modifies ptr.buf, bus
      ensures bus.dev.Idle()
      ensures var m := old(bus.dev.mem);
              var parked := if x.dirty then BufferWritten(tk, m, x.page, 0, Buffer2, x.buf) else m;
              && ptr.buf[..] == PageInto(tk, parked, page, 0, EE_PAGE_SIZE, x.buf)
              && bus.dev.mem == if x.dirty then Programmed(tk, parked, x.page, Buffer2) else m
    {
      if !ptr.dirty {
        ReadPageDirect(bus, tk, page, 0, EE_PAGE_SIZE, ptr.buf);
      } else {
        var oldPage := ptr.page;
        assert ptr.buf[..EE_PAGE_SIZE] == x.buf;
        BufferWrite(bus, tk, oldPage, 0, EE_PAGE_SIZE, Buffer2, ptr.buf);
        ReadPageDirect(bus, tk, page, 0, EE_PAGE_SIZE, ptr.buf);
        WriteBufferToFlash(bus, tk, ptr.page, Buffer2);
      }
    }

    // A miss: give the slot over to the page.
    method Replace(ghost at: nat, ptr: CachePage, page: u16)
      requires Linked() && at < |ext| && ptr == ext[at]
      modifies this`slots, ptr, ptr.buf, bus
      ensures Linked() && Now() == Replaced(old(Now()), at, page)
    {
      LoadPage(ptr, page, slots[at]);
      ptr.page, ptr.count, ptr.dirty := page, 0, false;
      slots := slots[at := Slot(page, false, 0, ptr.buf[..])];
    }

    method Touch(ghost at: nat, ptr: CachePage)
      requires Linked() && at < |ext| && ptr == ext[at]
      modifies this`slots, ptr`count
      ensures Linked() && Now() == Touched(old(Now()), at)
    {
      ptr.count := 0;
      slots := slots[at := slots[at].(count := 0)];
    }

    /** The slot that now holds the page, as a request for it leaves the cache. */
    method ExtCacheFill(page: u16) returns (ptr: CachePage, ghost at: nat)
      requires Valid()
      modifies this`slots, Repr, bus
      ensures Valid() && Now() == Fill(old(Now()), page)
      ensures at == FillIndex(old(Now()), page) && ptr == ext[at]
    {
      FillShowsNothing(Now(), page);
      AgeCache();
      var i, hit := Scan(page);
      ptr, at := ext[i], i;
      if hit {
        Touch(i, ptr);
      } else {
        Replace(i, ptr, page);
      }
    }

    // Write a slot back through buffer 2 and mark it clean.
    method Clean(ghost at: nat, ptr: CachePage)
      requires Linked() && at < |ext| && ptr == ext[at] && slots[at].dirty
      modifies this`slots, ptr`dirty, bus
      ensures Linked() && Now() == Cleaned(old(Now()), at)
    {
      assert ptr.Holds(slots[at]) && ptr.buf[..EE_PAGE_SIZE] == slots[at].buf;
      BufferWrite(bus, tk, ptr.page, 0, EE_PAGE_SIZE, Buffer2, ptr.buf);
      WriteBufferToFlash(bus, tk, ptr.page, Buffer2);
      ptr.dirty := false;
      slots := slots[at := slots[at].(dirty := false)];
    }

    method CacheCheck() returns (busy: bool)
      requires Valid()
      modifies this`slots, Repr, bus
      ensures Valid() && Now() == Check(old(Now()))
      ensures busy <==> DirtyCount(old(slots)) > 0
    {
      CheckCleansOne(Now());
      ChecksFlat(Now());
      for i := 0 to |ext|
        invariant Valid() && Now() == old(Now())
        invariant forall k :: 0 <= k < i ==> !slots[k].dirty
      {
        assert ext[i].Holds(slots[i]);
        if ext[i].dirty {
          assert FirstDirty(slots) == i;
          Clean(i, ext[i]);
          return true;
        }
      }
      return false;
    }

    method CacheFlush()
      requires Valid()
      modifies this`slots, Repr, bus
      ensures Valid() && Now() == Flush(old(Now()))
    {
      var busy := true;
      while busy
        invariant Valid()
        invariant Flush(Now()) == Flush(old(Now()))
        invariant !busy ==> DirtyCount(slots) == 0
        decreases busy, DirtyCount(slots)
      {
        CheckCleansOne(Now());
        busy := CacheCheck();
      }
      CheckCleansOne(Now());
    }

    method Read1(addr: u32) returns (d: byte)
      requires Valid()
      modifies this`slots, Repr, bus
      ensures Valid() && Now() == Fill(old(Now()), PageOf(addr))
      ensures d == CacheModel.Read1(old(Now()), addr)
    {
      var ptr, at := ExtCacheFill(addr / 512 % 0x1_0000);
      assert ptr.Holds(slots[at]);
      d := ptr.buf[addr % 512];
    }

    // Change one byte of a slot and mark it dirty.
    method Patch(ghost at: nat, ptr: CachePage, off: nat, data: byte)
      requires Linked() && at < |ext| && ptr == ext[at] && off < EE_PAGE_SIZE
      modifies this`slots, ptr`dirty, ptr.buf
      ensures Linked() && Now() == Rewritten(old(Now()), at, old(slots[at].buf)[off := data])
    {
      assert ptr.Holds(slots[at]);
      ptr.dirty := true;
      ptr.buf[off] := data;
      slots := slots[at := slots[at].(dirty := true, buf := ptr.buf[..])];
    }

    method Write1(addr: u32, data: byte)
      requires Valid()
      modifies this`slots, Repr, bus
      ensures Valid() && Now() == CacheModel.Write1(old(Now()), addr, data)
    {
      WritesFlat(Now(), addr, data);
      var ptr, at := ExtCacheFill(addr / 512 % 0x1_0000);
      assert ptr.Holds(slots[at]);
      if ptr.buf[addr % 512] != data {
        Patch(at, ptr, addr % 512, data);
      }
    }

    method Read2(addr: u32) returns (v: u16)
      requires Valid()
      modifies this`slots, Repr, bus
      ensures Valid() && Now() == Run(old(Now()), Reads(addr, 2))
      ensures var b := BytesRead(old(Now()), addr, 2); v == b[0] as int + 256 * b[1] as int
      ensures Bytes2(v) == BytesRead(old(Now()), addr, 2)
    {
      ReadTwo(Now(), addr);
      var lo := Read1(addr);
      var hi := Read1(Plus(addr, 1));
      assert [lo] + [hi] == [lo, hi];
      v := Word2(lo, hi);
    }

    method Read4(addr: u32) returns (v: u32)
      requires Valid()
      modifies this`slots, Repr, bus
      ensures Valid() && Now() == Run(old(Now()), Reads(addr, 4))
      ensures var b := BytesRead(old(Now()), addr, 4);
              v == b[0] as int + 256 * b[1] as int + 65536 * b[2] as int + 16777216 * b[3] as int
      ensures Bytes4(v) == BytesRead(old(Now()), addr, 4)
    {
      BytesReadJoin(Now(), addr, 2, 2);
      var lo := Read2(addr);
      var hi := Read2(Plus(addr, 2));
      v := Word4(lo, hi);
    }

    // One more byte of a run of reads begun in state s.
    method ReadNext(ghost s: State, addr: u32, i: nat) returns (c: byte)
      requires Valid() && s.Wf() && Now() == Run(s, Reads(addr, i))
      modifies this`slots, Repr, bus
      ensures Valid() && Now() == Run(s, Reads(addr, i + 1))
      ensures BytesRead(s, addr, i + 1) == BytesRead(s, addr, i) + [c]
    {
      ReadOneMore(s, addr, i);
      c := Read1(Plus(addr, i));
    }

    method Poke(dest: array<byte>, i: nat, c: byte)
      requires Valid() && i < dest.Length && dest !in Repr
      modifies dest
      ensures Valid() && Now() == old(Now())
      ensures dest[..] == old(dest[..])[i := c]
    {
      dest[i] := c;
    }

    method Read(addr: u32, dest: array<byte>, size: u16)
      requires Valid() && size <= dest.Length && dest !in Repr
      modifies this`slots, Repr, bus, dest
      ensures Valid() && Now() == Run(old(Now()), Reads(addr, size))
      ensures dest[..] == Overlaid(old(dest[..]), BytesRead(old(Now()), addr, size))
    {
      ghost var s, d0 := Now(), dest[..];
      NoReads(s, addr);
      for i := 0 to size
        invariant Valid() && Now() == Run(s, Reads(addr, i))
        invariant dest[..] == Overlaid(d0, BytesRead(s, addr, i))
      {
        var c := ReadNext(s, addr, i);
        OverlaidOneMore(d0, BytesRead(s, addr, i), c);
        Poke(dest, i, c);
      }
    }

    /** An erased word, all bits set, reads as the caller's default. */
    method Read4Default(addr: u32, def: u32) returns (v: u32)
      requires Valid()
      modifies this`slots, Repr, bus
      ensures Valid() && Now() == Run(old(Now()), Reads(addr, 4))
      ensures if BytesRead(old(Now()), addr, 4) == [0xFF, 0xFF, 0xFF, 0xFF] then v == def
              else Bytes4(v) == BytesRead(old(Now()), addr, 4)
    {
      var d := Read4(addr);
      ErasedWord(d);
      v := if d == 0xFFFF_FFFF then def else d;
    }

    // A string read so far: the cache and dest after i characters, none a terminator.
    ghost predicate Midway(s: State, d0: seq<byte>, addr: u32, i: nat, dest: array<byte>)
      reads this, bus, Repr, dest
    {
      && Valid() && s.Wf() && Now() == Run(s, Reads(addr, i))
      && i <= |d0| && Plain(BytesRead(s, addr, i)) && dest[..] == Overlaid(d0, BytesRead(s, addr, i))
    }

    // ... and once a terminator has been met and stored.
    ghost predicate Ended(s: State, d0: seq<byte>, addr: u32, i: nat, dest: array<byte>)
      reads this, bus, Repr, dest
    {
      && Valid() && s.Wf() && Now() == Run(s, Reads(addr, i + 1))
      && i < |d0| && Plain(BytesRead(s, addr, i)) && BytesRead(s, addr, i + 1)[i] in {0, 0xFF}
      && dest[..] == Overlaid(d0, BytesRead(s, addr, i) + [0])
    }

    // One character fetched, an erased byte turned into the terminator, and stored.
    method CopyCharacter(ghost s: State, ghost d0: seq<byte>, addr: u32, i: nat, dest: array<byte>) returns (c: byte)
      requires Midway(s, d0, addr, i, dest) && i < dest.Length && dest !in Repr
      modifies this`slots, Repr, bus, dest
      ensures if c == 0 then Ended(s, d0, addr, i, dest) else Midway(s, d0, addr, i + 1, dest)
    {
      ghost var got := BytesRead(s, addr, i);
      c := ReadNext(s, addr, i);
      if c == 0xFF {
        c := 0;
      } else if c != 0 {
        PlainOneMore(got, c);
      }
      Poke(dest, i, c);
      OverlaidOneMore(d0, got, c);
    }

    /** Fills dest with the string at addr, at most size - 1 characters up to a 0x00 or
        0xFF byte. A string that ends before the limit is terminated twice; nothing behind
        the terminators is written, so with size >= 1 nothing behind dest[size - 1]. */
    method ReadString(addr: u32, dest: array<byte>, size: u16) returns (len: u16)
      requires Valid() && dest.Length >= 1 && size <= dest.Length && dest !in Repr
      modifies this`slots, Repr, bus, dest
      ensures Valid()
      ensures var n := if size == 0 then 0 else size - 1;
              var str := Terminated(BytesRead(old(Now()), addr, n));
              && len == |str|
              && dest[..] == Overlaid(old(dest[..]), str + if len == n then [0] else [0, 0])
              && Now() == Run(old(Now()), Reads(addr, if len == n then len else len + 1))
    {
      ghost var s, d0, n := Now(), dest[..], if size == 0 then 0 else size - 1;
      NoReads(s, addr);
      len := 0;
      var d := 0;
      while len < size - 1
        invariant d == len <= n && Midway(s, d0, addr, len, dest)
        decreases n - len
      {
        var c := CopyCharacter(s, d0, addr, len, dest);
        d := d + 1;
        if c == 0 {
          break;
        }
        len := len + 1;
      }
      StringEndsHere(s, addr, n, len);
      Poke(dest, d, 0);
      StringStored(d0, BytesRead(s, addr, len), d, dest[..]);
    }

    method Write2(addr: u32, data: u16)
      requires Valid()
      modifies this`slots, Repr, bus
      ensures Valid() && Now() == Run(old(Now()), Writes(addr, Bytes2(data)))
    {
      var lo, hi := Low8(data), Low8(data / 256);
      assert Bytes2(data) == [lo, hi];
      WriteTwo(Now(), addr, lo, hi);
      Write1(addr, lo);
      Write1(Plus(addr, 1), hi);
    }

    method Write4(addr: u32, data: u32)
      requires Valid()
      modifies this`slots, Repr, bus
      ensures Valid() && Now() == Run(old(Now()), Writes(addr, Bytes4(data)))
    {
      WritesJoin(Now(), addr, Bytes2(data % 0x1_0000), Bytes2(data / 0x1_0000));
      Write2(addr, data % 0x1_0000);
      Write2(Plus(addr, 2), data / 0x1_0000);
    }

    method Write(addr: u32, src: array<byte>, size: u16)
      requires Valid() && size <= src.Length && src !in Repr
      modifies this`slots, Repr, bus
      ensures Valid() && Now() == Run(old(Now()), Writes(addr, src[..size]))
    {
      for i := 0 to size
        invariant Valid() && Now() == Run(old(Now()), Writes(addr, src[..i]))
      {
        WriteOneMore(old(Now()), addr, src[..i], src[i]);
        assert src[..i + 1] == src[..i] + [src[i]];
        Write1(Plus(addr, i), src[i]);
      }
    }

    // Index of the terminator, as strlen finds it.
    static method StrLen(s: array<byte>) returns (n: nat)
      requires 0 in s[..]
      ensures n < s.Length && s[n] == 0 && 0 !in s[..n]
    {
      n := 0;
      while s[n] != 0
        invariant n < s.Length && 0 !in s[..n]
        decreases s.Length - n
      {
        assert exists k :: 0 <= k < s.Length && s[k] == 0;
        n := n + 1;
      }
    }

    method WriteString(addr: u32, src: array<byte>, size: byte)
      requires Valid() && 0 in src[..] && src !in Repr
      modifies this`slots, Repr, bus
      ensures Valid()
      ensures exists n :: 0 <= n < src.Length && src[n] == 0 && 0 !in src[..n]
                && Now() == Run(old(Now()), Writes(addr, Image(src[..n], size)))
    {
      var n := StrLen(src);
      var count := if n + 1 < size then n + 1 else size;
      assert src[..count] == Image(src[..n], size) by { assert src[..n] + [0] == src[..n + 1]; }
      Write(addr, src, count);
    }
  }

  // A buffer whose beginning was overwritten.
  function Overlaid(dest: seq<byte>, front: seq<byte>): (r: seq<byte>)
    requires |front| <= |dest|
    ensures |r| == |dest|
    ensures forall i :: 0 <= i < |r| ==> r[i] == if i < |front| then front[i] else dest[i]
  {
    front + dest[|front|..]
  }

  // The one or two terminators behind a stored string.
  lemma StringStored(d0: seq<byte>, str: seq<byte>, d: nat, dest: seq<byte>)
    requires |str| <= d <= |str| + 1 && d < |d0|
    requires dest == (if d == |str| then Overlaid(d0, str) else Overlaid(d0, str + [0]))[d := 0]
    ensures dest == Overlaid(d0, str + if d == |str| then [0] else [0, 0])
  {}

  lemma OverlaidOneMore(dest: seq<byte>, front: seq<byte>, c: byte)
    requires |front| < |dest|
    ensures Overlaid(dest, front)[|front| := c] == Overlaid(dest, front + [c])
  {}
}
