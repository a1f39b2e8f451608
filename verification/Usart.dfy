/** The USART's baud rate divider: Baudrate = mck / (over * (cd + fp / 8)). */
module Usart {
  import opened Words

  const HIGH_FRQ_SAMPLE_DIV := 16
  const LOW_FRQ_SAMPLE_DIV := 8
  const MAX_CD_VALUE := 0xFFFF
  const OVER_BIT := 19
  const US_MR_OVER := 0x8_0000
  const WORD := 0x1_0000_0000

  class Usart {
    var mr: u32
    var brgr: u32

    // Eight-fold oversampling is selected by one bit of the mode register.
    predicate Over8()
      reads this
    {
      Bit(mr, OVER_BIT)
    }

    // Sets the given bits of the mode register and leaves the others.
    method OrMode(bits: u32)
      modifies this`mr
      ensures forall k :: 0 <= k ==> (Bit(mr, k) <==> Bit(old(mr), k) || Bit(bits, k))
    {
      PowersOfTwo();
      BitOrFits(mr, bits, 32);
      forall k | 0 <= k ensures Bit(BitOr(mr, bits), k) <==> Bit(mr, k) || Bit(bits, k) {
        BitOfOr(mr, bits, k);
      }
      mr := BitOr(mr, bits);
    }

    /** All arithmetic is on 32-bit words; the division by zero the source would do is
        excluded. The mode bit is set when needed and never cleared, so the hardware
        oversamples as computed exactly when the bit was clear or is wanted. */
    method SetAsyncBaudrate(baudrate: u32, mck: u32) returns (failed: bool)
      requires Divider(baudrate, mck) != 0
      modifies this
      ensures var n := Rounded(baudrate, mck);
              && failed == !(8 <= n < 8 * 0x1_0000)
              && (if failed then brgr == old(brgr) else brgr % 0x1_0000 == n / 8 && brgr / 0x1_0000 == n % 8)
      ensures forall k :: 0 <= k && k != 19 ==> (Bit(mr, k) <==> Bit(old(mr), k))
      ensures Bit(mr, 19) <==> Bit(old(mr), 19) || (!failed && mck < 16 * baudrate % 0x1_0000_0000)
      ensures !failed ==> (HardwareOver(Over8()) == Over(baudrate, mck) <==> !old(Over8()) || Over(baudrate, mck) == 8)
    {
      var over: u32;
      if mck >= HIGH_FRQ_SAMPLE_DIV * baudrate % WORD {
        over := HIGH_FRQ_SAMPLE_DIV;
      } else {
        over := LOW_FRQ_SAMPLE_DIV;
      }
      var cdfp := (8 * mck % WORD + over * baudrate % WORD / 2) % WORD / (over * baudrate % WORD);
      var cd, fp := cdfp / 8, cdfp % 8;
      if cd < 1 || cd > MAX_CD_VALUE {
        return true;
      }
      if over == 8 {
        SetOver();
      }
      SetDivider(cd, fp);
      return false;
    }

    method SetOver()
      modifies this`mr
      ensures Over8() && forall k :: 0 <= k && k != OVER_BIT ==> (Bit(mr, k) <==> Bit(old(mr), k))
    {
      PowersOfTwo();
      forall k | 0 <= k ensures Bit(US_MR_OVER, k) <==> k == OVER_BIT { BitOfPower(OVER_BIT, k); }
      OrMode(US_MR_OVER);
    }

    // Whole part low and eighths above it in the generator register.
    method SetDivider(cd: u16, fp: nat)
      requires fp < 8
      modifies this`brgr
      ensures brgr % 0x1_0000 == cd && brgr / 0x1_0000 == fp
    {
      FieldsStandApart(cd, fp);
      brgr := BitOr(cd, fp * 0x1_0000);
    }

    /** Start-up: the reset clears the mode register first, so the hardware oversamples as
        computed unless the options themselves carry the bit; and then an accepted setting's
        rate - from the bits the hardware reads - is within 1/(2n) of the set point, n being
        the programmed divider, exactly when the 32-bit arithmetic did not wrap. */
    method InitRs232(baudrate: u32, mck: u32, options: u32) returns (failed: bool)
      requires Divider(baudrate, mck) != 0
      modifies this
      ensures failed <==> !(8 <= Rounded(baudrate, mck) < 8 * 0x1_0000)
      ensures !failed ==> brgr % 0x1_0000 == Rounded(baudrate, mck) / 8 && brgr / 0x1_0000 == Rounded(baudrate, mck) % 8
      ensures !failed ==> forall k :: 0 <= k && k != 19 ==> (Bit(mr, k) <==> Bit(options, k))
      ensures !failed ==> (Bit(mr, 19) <==> Bit(options, 19) || mck < 16 * baudrate % 0x1_0000_0000)
      ensures !failed ==>
                (HardwareOver(Over8()) == Over(baudrate, mck) <==> !Bit(options, 19) || Over(baudrate, mck) == 8)
      ensures var q, n := HardwareOver(Over8()) * baudrate, 8 * (brgr % 0x1_0000) + brgr / 0x1_0000;
              !failed && HardwareOver(Over8()) == Over(baudrate, mck) ==>
                (RateWithin(mck, q, n, 2 * n) <==> Fits(baudrate, mck)) &&
                (Fits(baudrate, mck) ==> RateWithin(mck, q, n, 16))
      ensures mck >= 16 * baudrate && Fits(baudrate, mck) ==> (failed <==> Rounded(baudrate, mck) >= 8 * 0x1_0000)
    {
      mr := 0;
      forall k | 0 <= k ensures !Bit(mr, k) { BitOfSmall(k); }
      failed := SetAsyncBaudrate(baudrate, mck);
      AcceptedRateIsClose(baudrate, mck, Over(baudrate, mck) * baudrate, Rounded(baudrate, mck));
      if failed {
        return;
      }
      OrMode(options);
    }
  }

  lemma FieldsStandApart(cd: u16, fp: nat)
    requires fp < 8
    ensures var r := BitOr(cd, fp * 0x1_0000); r < 0x8_0000 && r % 0x1_0000 == cd && r / 0x1_0000 == fp
  {
    PowersOfTwo();
    BitOrCommutes(cd, fp * 0x1_0000);
    BitOrDisjoint(fp, cd, 16);
    HighAndLow(fp, cd);
  }

  lemma HighAndLow(fp: nat, cd: u16)
    ensures (fp * 0x1_0000 + cd) % 0x1_0000 == cd && (fp * 0x1_0000 + cd) / 0x1_0000 == fp
  {}

  // The oversampling the hardware uses, from the mode register's bit.
  function HardwareOver(over8: bool): nat { if over8 then 8 else 16 }

  function Over(baudrate: u32, mck: u32): u32 {
    if mck >= 16 * baudrate % WORD then 16 else 8
  }

  // The clock cycles of one bit at one eighth of the divider's unit, as the code has it.
  function Divider(baudrate: u32, mck: u32): u32 { Over(baudrate, mck) * baudrate % WORD }

  // The combined divider 8 * cd + fp before the range check.
  function Rounded(baudrate: u32, mck: u32): nat
    requires Divider(baudrate, mck) != 0
  {
    (8 * mck % WORD + Divider(baudrate, mck) / 2) % WORD / Divider(baudrate, mck)
  }

  // Nothing wraps.
  ghost predicate Fits(baudrate: u32, mck: u32) {
    var q := Over(baudrate, mck) * baudrate;
    q < 0x1_0000_0000 && 8 * mck + q / 2 < 0x1_0000_0000
  }

  // n is a nearest integer to x / q: off by at most one half.
  ghost predicate Nearest(x: int, q: int, n: int) { -q <= 2 * x - 2 * (n * q) <= q }

  lemma DivideRounding(x: int, q: int, n: int)
    requires x >= 0 && q > 0 && n == (x + q / 2) / q
    ensures Nearest(x, q, n)
  {}

  lemma SmallWord(x: int)
    requires 0 <= x < WORD
    ensures x % WORD == x
  {}

  lemma FittingRounds(baudrate: u32, mck: u32)
    requires Fits(baudrate, mck) && Divider(baudrate, mck) != 0
    ensures Nearest(8 * mck, Over(baudrate, mck) * baudrate, Rounded(baudrate, mck))
  {
    var q := Over(baudrate, mck) * baudrate;
    SmallWord(q);
    SmallWord(8 * mck);
    SmallWord(8 * mck + q / 2);
    DivideRounding(8 * mck, q, Rounded(baudrate, mck));
  }

  // The quotient is at most the dividend over the divisor.
  lemma QuotientBelow(v: int, d: int, n: int)
    requires v >= 0 && d > 0 && n == v / d
    ensures n * d <= v < n * d + d
  {}

  // The sum wraps with a divider that does not: the quotient is too small.
  lemma WrappedSumIsFar(x: int, q: int, v: int, n: int)
    requires 0 < q < WORD && x + q / 2 >= WORD && v == (x % WORD + q / 2) % WORD && n == v / q
    ensures !Nearest(x, q, n)
  {
    WrapOnce(x, q / 2, v);
    QuotientBelow(v, q, n);
  }

  lemma WrapOnce(x: int, h: int, v: int)
    requires x >= 0 && h >= 0 && x + h >= WORD && v == (x % WORD + h) % WORD
    ensures v <= x + h - WORD
  {
    assert v == (x + h) % WORD;
  }

  // A wrapped divider: with eight or more eighths the quotient is too large.
  lemma WrappedDividerIsFar(x: int, q: int, d: int, v: int, n: int)
    requires q >= WORD && d == q % WORD && d > 0
    requires 0 <= x < 8 * WORD && v == (x % WORD + d / 2) % WORD && n == v / d && n >= 8
    ensures !Nearest(x, q, n)
  {
    QuotientBelow(v, d, n);
    if Nearest(x, q, n) {
      FirstWrapOnly(x, q, d, n);
      NotEightfold(x, d, v);
      assert false;
    }
  }

  lemma NotEightfold(x: int, d: int, v: int)
    requires d > 0 && 15 * d < WORD && 15 * (WORD + d) <= 2 * x && x < 8 * WORD && v == (x % WORD + d / 2) % WORD
    ensures !(8 * d <= v < 9 * d)
  {
    var s := x + d / 2;
    assert v == s % WORD && s >= 7 * WORD;
    assert s < 8 * WORD ==> v == s - 7 * WORD;
    assert s >= 8 * WORD ==> v == s - 8 * WORD;
  }

  // A near quotient leaves room for one wrap of the divider and a quotient of eight only.
  lemma FirstWrapOnly(x: int, q: int, d: int, n: int)
    requires q >= WORD && d == q % WORD && d > 0 && x < 8 * WORD && n >= 8 && Nearest(x, q, n)
    ensures n == 8 && q == WORD + d && 15 * d < WORD
  {
    Monotone(15, 2 * n - 1, q);
    assert (2 * n - 1) * q == 2 * (n * q) - q;
    if n > 8 { Monotone(17, 2 * n - 1, q); }
  }

  lemma Monotone(a: int, b: int, q: int)
    requires a <= b && q >= 0
    ensures a * q <= b * q
  {}

  /** An accepted divider is the nearest integer to 8 * mck / (over * baud) exactly when
      neither the product nor the rounded sum left the 32 bits. */
  lemma NearestExactly(baudrate: u32, mck: u32)
    requires Divider(baudrate, mck) != 0
    ensures Rounded(baudrate, mck) >= 8 ==>
              (Nearest(8 * mck, Over(baudrate, mck) * baudrate, Rounded(baudrate, mck)) <==> Fits(baudrate, mck))
  {
    var q, d, n := Over(baudrate, mck) * baudrate, Divider(baudrate, mck), Rounded(baudrate, mck);
    var v := (8 * mck % WORD + d / 2) % WORD;
    if Fits(baudrate, mck) {
      FittingRounds(baudrate, mck);
    } else if q < WORD {
      SmallWord(q);
      WrappedSumIsFar(8 * mck, q, v, n);
    } else if n >= 8 {
      WrappedDividerIsFar(8 * mck, q, d, v, n);
    }
  }

  /** The firmware's own setting, 115200 baud from a 6 MHz clock: three and two eighths. */
  lemma FirmwareSetting(baudrate: u32, mck: u32)
    requires baudrate == 115200 && mck == 6_000_000
    ensures Over(baudrate, mck) == 16 && Divider(baudrate, mck) != 0 && Fits(baudrate, mck)
    ensures Rounded(baudrate, mck) == 8 * 3 + 2
  {
    Sixteen(baudrate, mck);
    assert Divider(baudrate, mck) == 1_843_200;
    SmallWord(8 * mck);
    SmallWord(8 * mck + 921_600);
  }

  /** With a clock a little over 2^29 Hz the sum wraps, and an accepted divider is off by a
      factor of more than fifty. */
  lemma WrappedSettingIsAccepted(baudrate: u32, mck: u32)
    requires baudrate == 115200 && mck == 0x2000_0000 + 10_000_000
    ensures Divider(baudrate, mck) != 0 && Rounded(baudrate, mck) == 43
    ensures 8 * mck > 50 * (43 * (Over(baudrate, mck) * baudrate)) && !Fits(baudrate, mck)
  {}

  /** The achieved rate 8 * mck / (over * n) differs from the set point by at most one
      part in bound. With q = over * baudrate, and multiplied out by over * n * bound. */
  ghost predicate RateWithin(mck: int, q: int, n: int, bound: int) {
    -(n * q) <= (8 * mck - n * q) * bound <= n * q
  }

  lemma ErrorScales(x: int, n: int, q: int)
    requires n >= 8 && q >= 0
    ensures Nearest(x, q, n) <==> -(n * q) <= (x - n * q) * (2 * n) <= n * q
    ensures Nearest(x, q, n) ==> -(n * q) <= (x - n * q) * 16 <= n * q
  {
    var e := 2 * (x - n * q);
    assert (x - n * q) * (2 * n) == n * e;
    Scales(n, e, q);
    Scales(n, -e, q);
    assert n * (-e) == -(n * e);
    Monotone(8, n, q);
  }

  lemma Scales(n: int, e: int, q: int)
    requires n > 0
    ensures e <= q <==> n * e <= n * q
  {
    if e > q { assert n * (e - q) > 0; } else { assert n * (q - e) >= 0; }
  }

  lemma NotTooSmall(mck: int, q: int, n: int)
    requires mck >= q > 0 && n >= 0 && Nearest(8 * mck, q, n)
    ensures n >= 8
  {
    assert n <= 7 ==> n * q <= 7 * q;
  }

  /** An accepted rate is within 1/(2n) of the set point exactly when nothing wrapped, and
      then within 1/16; and with mck at least 16 times the rate and nothing wrapped it is
      never refused as too small. */
  lemma AcceptedRateIsClose(baudrate: u32, mck: u32, q: int, n: int)
    requires q == Over(baudrate, mck) * baudrate && Divider(baudrate, mck) != 0
    requires n == Rounded(baudrate, mck)
    ensures n >= 8 ==> (RateWithin(mck, q, n, 2 * n) <==> Fits(baudrate, mck))
    ensures n >= 8 && Fits(baudrate, mck) ==> RateWithin(mck, q, n, 16)
    ensures mck >= 16 * baudrate && Fits(baudrate, mck) ==> n >= 8 && Over(baudrate, mck) == 16
  {
    if n >= 8 {
      NearestExactly(baudrate, mck);
      ErrorScales(8 * mck, n, q);
    }
    if mck >= 16 * baudrate && Fits(baudrate, mck) {
      Sixteen(baudrate, mck);
      FittingRounds(baudrate, mck);
      NotTooSmall(mck, q, n);
    }
  }

  lemma Sixteen(baudrate: u32, mck: u32)
    requires mck >= 16 * baudrate
    ensures Over(baudrate, mck) == 16
  {
    assert 16 * baudrate % WORD == 16 * baudrate;
  }
}
