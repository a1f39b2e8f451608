/** Machine words of the firmware and the two bit tricks it plays with them. */
module Words {
  type byte = x: int | 0 <= x < 0x100
  type u16 = x: int | 0 <= x < 0x1_0000
  type u32 = x: int | 0 <= x < 0x1_0000_0000

  // The implicit conversion of an argument to an 8-bit parameter.
  function Low8(x: nat): byte { x % 0x100 }

  function Pow2(k: nat): (r: nat)
    ensures 0 < r
  {
    if k == 0 then 1 else 2 * Pow2(k - 1)
  }

  // Bitwise or of two non-negative numbers, bit by bit.
  function BitOr(x: nat, y: nat): nat
    decreases x + y
  {
    if x == 0 && y == 0 then 0
    else 2 * BitOr(x / 2, y / 2) + (if x % 2 == 1 || y % 2 == 1 then 1 else 0)
  }

  /** Or-ing a field shifted left by k with a field narrower than k bits adds them. */
  lemma {:induction false} BitOrDisjoint(hi: nat, lo: nat, k: nat)
    requires lo < Pow2(k)
    ensures BitOr(hi * Pow2(k), lo) == hi * Pow2(k) + lo
  {
    if k == 0 {
      BitOrRightZero(hi);
    } else {
      var h := hi * Pow2(k - 1);
      assert hi * Pow2(k) == 2 * h;
      BitOrDisjoint(hi, lo / 2, k - 1);
      if h != 0 || lo != 0 {
        assert (2 * h) / 2 == h && (2 * h) % 2 == 0;
      }
    }
  }

  lemma {:induction false} BitOrRightZero(x: nat)
    ensures BitOr(x, 0) == x
  {
    if x != 0 { BitOrRightZero(x / 2); }
  }

  lemma {:induction false} BitOrCommutes(x: nat, y: nat)
    ensures BitOr(x, y) == BitOr(y, x)
    decreases x + y
  {
    if x != 0 || y != 0 { BitOrCommutes(x / 2, y / 2); }
  }

  // Bit k of a number.
  predicate Bit(x: nat, k: nat)
    decreases k
  {
    if k == 0 then x % 2 == 1 else Bit(x / 2, k - 1)
  }

  lemma BitOrStep(x: nat, y: nat)
    ensures BitOr(x, y) / 2 == BitOr(x / 2, y / 2)
    ensures BitOr(x, y) % 2 == 1 <==> x % 2 == 1 || y % 2 == 1
  {}

  lemma {:induction false} BitOfOr(x: nat, y: nat, k: nat)
    ensures Bit(BitOr(x, y), k) <==> Bit(x, k) || Bit(y, k)
    decreases k
  {
    BitOrStep(x, y);
    if k > 0 { BitOfOr(x / 2, y / 2, k - 1); }
  }

  lemma {:induction false} BitOfPower(n: nat, k: nat)
    ensures Bit(Pow2(n), k) <==> k == n
    decreases n
  {
    if n == 0 {
      BitOfSmall(k);
    } else if k > 0 {
      BitOfPower(n - 1, k - 1);
    }
  }

  lemma {:induction false} BitOfSmall(k: nat)
    ensures Bit(1, k) <==> k == 0
    ensures !Bit(0, k)
    decreases k
  {
    if k > 0 { BitOfSmall(k - 1); }
  }

  lemma {:induction false} BitOrFits(x: nat, y: nat, n: nat)
    requires x < Pow2(n) && y < Pow2(n)
    ensures BitOr(x, y) < Pow2(n)
    decreases n
  {
    if n > 0 { BitOrFits(x / 2, y / 2, n - 1); }
  }

  lemma PowersOfTwo()
    ensures Pow2(2) == 4 && Pow2(8) == 0x100 && Pow2(16) == 0x1_0000
    ensures Pow2(19) == 0x8_0000 && Pow2(32) == 0x1_0000_0000
  {}
}
