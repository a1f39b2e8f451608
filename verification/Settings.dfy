/** Calibration constants and offsets kept in the emulated EEPROM, and how they come
    through a flush and a restart. */
module Settings {
  import opened Words
  import opened Chip
  import opened DataFlash
  import opened CacheModel
  import opened FlatMemory
  import opened CacheRuns
  import opened CacheBytes
  import opened Eeprom

  type i32 = x: int | -0x8000_0000 <= x < 0x8000_0000

  // Conversions between the signed and unsigned 32-bit types.
  function ToUnsigned(v: i32): u32 { v % 0x1_0000_0000 }
  function ToSigned(v: u32): i32 { if v < 0x8000_0000 then v else v - 0x1_0000_0000 }

  const EE_CH_1_VOLT: u32 := 0x0002
  const EE_CH_2_VOLT: u32 := 0x0006
  const EE_CH_1_VOLT_OFFSET: u32 := 0x000A
  const EE_CH_2_VOLT_OFFSET: u32 := 0x000E
  const DEFAULT_VOLT: u32 := 856
  const DEFAULT_OFFSET: u32 := 1

  datatype Field = Calibration(ch: byte) | Offset(ch: byte)

  function AddressOf(f: Field): u32 {
    match f
    case Calibration(ch) => if ch == 1 then EE_CH_1_VOLT else EE_CH_2_VOLT
    case Offset(ch) => if ch == 1 then EE_CH_1_VOLT_OFFSET else EE_CH_2_VOLT_OFFSET
  }

  function DefaultOf(f: Field): u32 { if f.Calibration? then DEFAULT_VOLT else DEFAULT_OFFSET }

  /** The four fields - calibration and offset of channel 1 and of any other - have four
      bytes each of the first page to themselves. */
  lemma FieldsLieApart(f: Field, g: Field)
    ensures AddressOf(f) + 4 <= 512
    ensures if f.Calibration? == g.Calibration? && (f.ch == 1 <==> g.ch == 1) then AddressOf(f) == AddressOf(g)
            else AddressOf(f) + 4 <= AddressOf(g) || AddressOf(g) + 4 <= AddressOf(f)
  {}

  // What a reader with a default makes of four stored bytes.
  function Decoded(bs: seq<byte>, def: u32): u32
    requires |bs| == 4
  {
    if bs == [0xFF, 0xFF, 0xFF, 0xFF] then def else Spelled4(bs)
  }

  function FieldRead(s: State, f: Field): u32
    requires s.Wf()
  {
    Decoded(BytesRead(s, AddressOf(f), 4), DefaultOf(f))
  }

  function AfterFieldWrite(s: State, f: Field, v: u32): State
    requires s.Wf()
  {
    Run(s, Writes(AddressOf(f), Bytes4(v)))
  }

  method ReadVoltCalibration(ee: Eeprom, ch: byte) returns (v: u32)
    requires ee.Valid()
    modifies ee`slots, ee.Repr, ee.bus
    ensures ee.Valid() && ee.Now() == Run(old(ee.Now()), Reads(AddressOf(Calibration(ch)), 4))
    ensures v == FieldRead(old(ee.Now()), Calibration(ch))
  {
    v := ee.Read4Default(if ch == 1 then EE_CH_1_VOLT else EE_CH_2_VOLT, DEFAULT_VOLT);
    Spells4(v);
  }

  method WriteVoltCalibration(ee: Eeprom, ch: byte, v: u32)
    requires ee.Valid()
    modifies ee`slots, ee.Repr, ee.bus
    ensures ee.Valid() && ee.Now() == AfterFieldWrite(old(ee.Now()), Calibration(ch), v)
  {
    ee.Write4(if ch == 1 then EE_CH_1_VOLT else EE_CH_2_VOLT, v);
  }

  method ReadVoltOffset(ee: Eeprom, ch: byte) returns (v: i32)
    requires ee.Valid()
    modifies ee`slots, ee.Repr, ee.bus
    ensures ee.Valid() && ee.Now() == Run(old(ee.Now()), Reads(AddressOf(Offset(ch)), 4))
    ensures v == ToSigned(FieldRead(old(ee.Now()), Offset(ch)))
  {
    var u := ee.Read4Default(if ch == 1 then EE_CH_1_VOLT_OFFSET else EE_CH_2_VOLT_OFFSET, DEFAULT_OFFSET);
    Spells4(u);
    v := ToSigned(u);
  }

  method WriteVoltOffset(ee: Eeprom, ch: byte, v: i32)
    requires ee.Valid()
    modifies ee`slots, ee.Repr, ee.bus
    ensures ee.Valid() && ee.Now() == AfterFieldWrite(old(ee.Now()), Offset(ch), ToUnsigned(v))
  {
    ee.Write4(if ch == 1 then EE_CH_1_VOLT_OFFSET else EE_CH_2_VOLT_OFFSET, ToUnsigned(v));
  }

  // ---- restart ----

  // Flush, lose all RAM, start up again on the same chip with n slots.
  function Restarted(s: State, n: nat): State
    requires s.Wf()
  {
    Init(s.tk, n, Flush(s).mem)
  }

  /** A flush and a restart lose nothing of the flat array. */
  lemma RestartKeepsArray(s: State, n: nat)
    requires s.Inv() && n >= 1
    ensures Restarted(s, n).Inv() && Flat(Restarted(s, n)) == Flat(s)
  {
    FlushesFlat(s);
    FreshFlat(s.tk, n, Flush(s).mem);
  }

  lemma SmallAddress(addr: u32, i: nat)
    requires addr + i < 512
    ensures FlatIndex(Plus(addr, i)) == addr + i
  {}

  // Reading a field shows its four bytes of the array.
  lemma FieldShows(s: State, f: Field)
    requires s.Inv() && s.tk.size >= 1
    ensures BytesRead(s, AddressOf(f), 4) == Flat(s)[AddressOf(f)..AddressOf(f) + 4]
  {
    var a := AddressOf(f);
    forall i | 0 <= i < 4 ensures FlatIndex(Plus(a, i)) == a + i { SmallAddress(a, i); }
    forall i | 0 <= i < 4 ensures BytesRead(s, a, 4)[i] == Flat(s)[a + i] { ReadsShowFlat(s, a, 4, i); }
  }

  lemma SmallBehind(a: u32, i: nat, b: u32)
    requires a < 512 && b < 512 && i < 512
    ensures Behind(b, a + i) == if a + i >= b then a + i - b else ADDRESS_SPACE + a + i - b
  {}

  // Two four-byte fields on the first page that are the same or do not overlap.
  predicate Apart4(a: u32, b: u32) { a <= 508 && b <= 508 && (a == b || a + 4 <= b || b + 4 <= a) }

  lemma FieldByteLast(b: u32, bs: seq<byte>, a: u32, i: nat, was: byte)
    requires i < 4 && |bs| == 4 && Apart4(a, b)
    ensures LastWritten(Writes(b, bs), a + i, was) == if a == b then bs[i] else was
  {
    SmallBehind(a, i, b);
    LastWrittenByRun(b, bs, a + i, was);
  }

  lemma FieldByteWritten(m: seq<byte>, b: u32, bs: seq<byte>, a: u32, i: nat)
    requires 512 <= |m| <= ADDRESS_SPACE && i < 4 && |bs| == 4 && Apart4(a, b)
    ensures FlatRun(m, Writes(b, bs))[a + i] == if a == b then bs[i] else m[a + i]
  {
    FieldByteLast(b, bs, a, i, m[a + i]);
    FlatRunRemembersLastWrite(m, Writes(b, bs), a + i);
  }

  lemma FieldBytesWritten(m: seq<byte>, b: u32, bs: seq<byte>, a: u32)
    requires 512 <= |m| <= ADDRESS_SPACE && |bs| == 4 && Apart4(a, b)
    ensures FlatRun(m, Writes(b, bs))[a..a + 4] == if a == b then bs else m[a..a + 4]
  {
    var x, y := FlatRun(m, Writes(b, bs))[a..a + 4], if a == b then bs else m[a..a + 4];
    forall i | 0 <= i < 4 ensures x[i] == y[i] {
      FieldByteWritten(m, b, bs, a, i);
    }
    assert x == y;
  }

  // Writing a field changes just its four bytes of the array.
  lemma FieldWritten(s: State, f: Field, v: u32, g: Field)
    requires s.Inv() && s.tk.size >= 1
    ensures AfterFieldWrite(s, f, v).Inv()
    ensures var m, a := Flat(AfterFieldWrite(s, f, v)), AddressOf(g);
            m[a..a + 4] == if a == AddressOf(f) then Bytes4(v) else Flat(s)[a..a + 4]
  {
    RunRefinesFlatArray(s, Writes(AddressOf(f), Bytes4(v)));
    FieldBytesWritten(Flat(s), AddressOf(f), Bytes4(v), AddressOf(g));
  }

  /** Settings survive: a field written, flushed and read after a restart gives back the
      value written if it is not 0xFFFFFFFF and the default if it is; the other fields
      read as they did before. */
  lemma SettingsSurviveRestart(s: State, f: Field, v: u32, n: nat, g: Field)
    requires s.Inv() && s.tk.size >= 1 && n >= 1
    ensures AfterFieldWrite(s, f, v).Inv() && Restarted(AfterFieldWrite(s, f, v), n).Inv()
    ensures FieldRead(Restarted(AfterFieldWrite(s, f, v), n), g) ==
            if f.Calibration? != g.Calibration? || (f.ch == 1) != (g.ch == 1) then FieldRead(s, g)
            else if v != 0xFFFF_FFFF then v
            else if g.Calibration? then 856 else 1
  {
    var t := AfterFieldWrite(s, f, v);
    FieldsLieApart(f, g);
    FieldWritten(s, f, v, g);
    RestartKeepsArray(t, n);
    FieldShows(Restarted(t, n), g);
    FieldShows(s, g);
    ErasedWord(v);
    Spells4(v);
  }

  /** On erased flash the calibrations read 856 and the offsets 1. */
  lemma ErasedReadsDefaults(s: State, f: Field)
    requires s.Inv() && s.tk.size >= 1 && forall k :: 0 <= k < 512 ==> Flat(s)[k] == 0xFF
    ensures FieldRead(s, f) == if f.Calibration? then 856 else 1
  {
    FieldsLieApart(f, f);
    FieldShows(s, f);
    AllErased(Flat(s), AddressOf(f));
  }

  lemma AllErased(m: seq<byte>, a: nat)
    requires a + 4 <= 512 <= |m| && forall k :: 0 <= k < 512 ==> m[k] == 0xFF
    ensures m[a..a + 4] == [0xFF, 0xFF, 0xFF, 0xFF]
  {}

  /** Where a written field lies on the chip after a flush: behind the first two bytes of
      the token's first page, calibrations before offsets and channel 1 before the other,
      four bytes each, low byte first. */
  lemma FieldInFlash(s: State, f: Field, v: u32)
    requires s.Inv() && s.tk.size >= 1
    ensures AfterFieldWrite(s, f, v).Inv() && s.tk.first < FLASH_PAGES
    ensures var at := 2 + (if f.Calibration? then 0 else 8) + (if f.ch == 1 then 0 else 4);
            var b := Flush(AfterFieldWrite(s, f, v)).mem.main[s.tk.first][at..at + 4];
            v == b[0] as int + 256 * b[1] as int + 65536 * b[2] as int + 16777216 * b[3] as int
  {
    var t, a := AfterFieldWrite(s, f, v), AddressOf(f);
    FieldWritten(s, f, v, f);
    FlushesFlat(t);
    FirstPageBytes(t.tk, Flush(t).mem, a);
    assert a == 2 + (if f.Calibration? then 0 else 8) + (if f.ch == 1 then 0 else 4);
  }

  lemma FirstPageBytes(tk: Token, m: Memory, a: nat)
    requires tk.Fits() && m.Valid() && tk.size >= 1 && a + 4 <= 512
    ensures FlashBytes(tk, m)[a..a + 4] == m.main[tk.first][a..a + 4]
  {
    forall i | a <= i < a + 4 ensures FlashBytes(tk, m)[i] == m.main[tk.first][i] {
      assert i / 512 == 0 && i % 512 == i;
    }
  }

  lemma SignedRoundTrip(v: i32)
    ensures ToSigned(ToUnsigned(v)) == v && (ToUnsigned(v) - v) % 0x1_0000_0000 == 0
    ensures ToUnsigned(v) == 0xFFFF_FFFF <==> v == -1
  {}

  /** A signed offset comes back as written exactly when it is not -1, which reads as +1. */
  lemma OffsetSurvivesUnlessMinusOne(s: State, ch: byte, v: i32, n: nat)
    requires s.Inv() && s.tk.size >= 1 && n >= 1
    ensures AfterFieldWrite(s, Offset(ch), ToUnsigned(v)).Inv()
    ensures var back := ToSigned(FieldRead(Restarted(AfterFieldWrite(s, Offset(ch), ToUnsigned(v)), n), Offset(ch)));
            (back == v <==> v != -1) && (v == -1 ==> back == 1)
  {
    SignedRoundTrip(v);
    SettingsSurviveRestart(s, Offset(ch), ToUnsigned(v), n, Offset(ch));
  }
}
