/** ParityUnit: the even/odd parity bit of one byte (`calc_parity`). */
module Parity {
  import opened KcsTypes

  /** Number of set bits among bits 0..n-1 of b. */
  function PopCount(b: nat, n: nat): (c: nat)
    ensures c <= n
  {
    if n == 0 then 0 else PopCount(b, n - 1) + ByteBit(b, n - 1)
  }

  /** The parity bit for a byte with count set bits: 'E' makes the total even, 'O' odd, any other letter gives 0. */
  function ParityBit(count: nat, mode: char): (p: nat)
    ensures p <= 1
    ensures mode == 'E' ==> (count + p) % 2 == 0
    ensures mode == 'O' ==> (count + p) % 2 == 1
    ensures mode != 'E' && mode != 'O' ==> p == 0
  {
    if mode == 'E' then (if count % 2 == 0 then 0 else 1)
    else if mode == 'O' then (if count % 2 == 0 then 1 else 0)
    else 0
  }

  /** The parity bit of byte b. */
  function ParityOf(b: byte, mode: char): (p: nat)
    ensures p <= 1
    ensures mode == 'E' ==> (PopCount(b, 8) + p) % 2 == 0
    ensures mode == 'O' ==> (PopCount(b, 8) + p) % 2 == 1
    ensures mode != 'E' && mode != 'O' ==> p == 0
  {
    ParityBit(PopCount(b, 8), mode)
  }

  /** One more set bit gives the opposite parity bit, for 'E' and 'O'. */
  lemma ParityBitStep(count: nat, mode: char)
    requires mode == 'E' || mode == 'O'
    ensures ParityBit(count + 1, mode) == 1 - ParityBit(count, mode)
  {
  }

  /** `calc_parity`: counts the set bits of b with a loop over bits 0..7, then picks the parity bit. */
  method CalcParity(b: byte, mode: char) returns (p: nat)
    ensures p == ParityOf(b, mode)
    ensures mode == 'E' ==> (PopCount(b, 8) + p) % 2 == 0
    ensures mode == 'O' ==> (PopCount(b, 8) + p) % 2 == 1
    ensures mode != 'E' && mode != 'O' ==> p == 0
  {
    var count := 0;
    var i := 0;
    while i < 8
      invariant 0 <= i <= 8
      invariant count == PopCount(b, i)
    {
      // `byte & (1 << i)` is non-zero exactly when bit i is set
      if ByteBit(b, i) == 1 {
        count := count + 1;
      }
      i := i + 1;
    }
    if mode == 'E' {
      p := if count % 2 == 0 then 0 else 1;
    } else if mode == 'O' {
      p := if count % 2 == 0 then 1 else 0;
    } else {
      p := 0;
    }
  }

  /** b with bit j inverted: `b ^ (1 << j)`. */
  function FlipBit(b: byte, j: nat): int
  {
    if ByteBit(b, j) == 1 then b - Pow2(j) else b + Pow2(j)
  }

  /** Flipping one bit of the byte flips the parity bit, for both 'E' and 'O'. */
  lemma ParityDetectsSingleFlip(b: byte, j: nat, mode: char)
    requires j < 8
    requires mode == 'E' || mode == 'O'
    ensures 0 <= FlipBit(b, j) < 256
    ensures ParityOf(FlipBit(b, j), mode) == 1 - ParityOf(b, mode)
  {
    FlipBounds(b, j, 8);
    var flipped: byte := FlipBit(b, j);
    PopCountFlip(b, flipped, j, 8);
    if ByteBit(b, j) == 1 {
      ParityStep(flipped, b, mode);
    } else {
      ParityStep(b, flipped, mode);
    }
  }

  /** One more set bit gives the opposite parity bit. */
  lemma ParityStep(b1: byte, b2: byte, mode: char)
    requires mode == 'E' || mode == 'O'
    requires PopCount(b1, 8) + 1 == PopCount(b2, 8)
    ensures ParityOf(b1, mode) == 1 - ParityOf(b2, mode)
  {
    ParityBitStep(PopCount(b1, 8), mode);
  }

  /** Setting a clear bit j of b < 2^n stays below 2^n; clearing a set bit stays non-negative. */
  lemma {:induction false} FlipBounds(b: nat, j: nat, n: nat)
    requires j < n && b < Pow2(n)
    ensures ByteBit(b, j) == 1 ==> b >= Pow2(j)
    ensures ByteBit(b, j) == 0 ==> b + Pow2(j) < Pow2(n)
  {
    var h := b / 2;
    assert b == 2 * h + b % 2;
    assert Pow2(n) == 2 * Pow2(n - 1);
    if j > 0 {
      FlipBounds(h, j - 1, n - 1);
      assert ByteBit(b, j) == ByteBit(h, j - 1);
      assert Pow2(j) == 2 * Pow2(j - 1);
    }
  }

  /** Adding or removing bit j changes the count of set bits among bits 0..n-1 by one when j < n. */
  lemma {:induction false} PopCountFlip(b: nat, flipped: nat, j: nat, n: nat)
    requires ByteBit(b, j) == 1 ==> b >= Pow2(j) && flipped == b - Pow2(j)
    requires ByteBit(b, j) == 0 ==> flipped == b + Pow2(j)
    ensures PopCount(flipped, n) == if j < n then
              (if ByteBit(b, j) == 1 then PopCount(b, n) - 1 else PopCount(b, n) + 1)
            else PopCount(b, n)
  {
    if n > 0 {
      PopCountFlip(b, flipped, j, n - 1);
      ShrFlip(b, flipped, j, n - 1);
    }
  }

  /** Bit k of b and of b with bit j flipped agree except at k == j. */
  lemma {:induction false} ShrFlip(b: nat, flipped: nat, j: nat, k: nat)
    requires ByteBit(b, j) == 1 ==> b >= Pow2(j) && flipped == b - Pow2(j)
    requires ByteBit(b, j) == 0 ==> flipped == b + Pow2(j)
    ensures ByteBit(flipped, k) == if k == j then 1 - ByteBit(b, j) else ByteBit(b, k)
  {
    if j == 0 {
      if k > 0 {
        assert flipped / 2 == b / 2;
      }
    } else if k == 0 {
      assert flipped % 2 == b % 2;
    } else {
      assert ByteBit(b / 2, j - 1) == ByteBit(b, j);
      assert flipped / 2 == if ByteBit(b, j) == 1 then b / 2 - Pow2(j - 1) else b / 2 + Pow2(j - 1);
      ShrFlip(b / 2, flipped / 2, j - 1, k - 1);
    }
  }

  /** Byte 0x03 has two set bits: even parity gives 0, odd parity gives 1. */
  lemma ParityOfThree()
    ensures ParityOf(0x03, 'E') == 0
    ensures ParityOf(0x03, 'O') == 1
  {
    assert PopCount(3, 8) == 2;
  }
}
