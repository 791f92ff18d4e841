/** Constants, primitive types and the serial format shared by every part of the modem. */
module KcsTypes {

  /** The fixed design sample rate, in samples per second. */
  const SAMPLE_RATE: nat := 44100
  /** Capacity of the decoder's output buffer, in bytes. */
  const BUFFER_SIZE: nat := 65536
  const BAUD_RATE_300: nat := 300
  const BAUD_RATE_1200: nat := 1200
  /** Frequency of the tone that stands for bit 0. */
  const TONE_FREQ_1200: nat := 1200
  /** Frequency of the tone that stands for bit 1. */
  const TONE_SPACE_2400: nat := 2400

  /** An unsigned 8-bit value (`uint8_t`). */
  type byte = x: int | 0 <= x < 256
  /** A signed 16-bit PCM sample (`int16_t`). */
  type int16 = x: int | -32768 <= x < 32768

  datatype Option<T> = None | Some(value: T)

  /** Serial character format: data bits, stop bits and a parity letter ('N', 'E', 'O' or any other char). */
  datatype SerialFormat = SerialFormat(dataBits: byte, stopBits: byte, parity: char)

  /** 1 when a parity window is framed: every letter except 'N' adds one. */
  function ParityBitCount(fmt: SerialFormat): (n: nat)
    ensures n == 0 <==> fmt.parity == 'N'
    ensures n <= 1
  {
    if fmt.parity == 'N' then 0 else 1
  }

  /** Bit windows per character: start bit, data bits, optional parity bit, stop bits. */
  function BitsPerChar(fmt: SerialFormat): (n: nat)
    ensures n >= 1 + fmt.dataBits
  {
    1 + fmt.dataBits + ParityBitCount(fmt) + fmt.stopBits
  }

  /**
   * The data bits that reach the decoded byte: `byte |= (bit & 1) << b` on a
   * `uint8_t` keeps bits 0..7 only.
   */
  function KeptBits(dataBits: nat): (n: nat)
    ensures n <= 8 && n <= dataBits
    ensures dataBits <= 8 ==> n == dataBits
    ensures dataBits >= 8 ==> n == 8
  {
    if dataBits <= 8 then dataBits else 8
  }

  function Pow2(n: nat): (p: nat)
    ensures p >= 1
  {
    if n == 0 then 1 else 2 * Pow2(n - 1)
  }

  /** `b >> j`: j halvings of b. */
  function Shr(b: nat, j: nat): (r: nat)
    ensures r <= b
  {
    if j == 0 then b else Shr(b / 2, j - 1)
  }

  /** `(b >> j) & 1`. */
  function ByteBit(b: nat, j: nat): (bit: nat)
    ensures bit <= 1
  {
    Shr(b, j) % 2
  }

  /** `b & ((1 << n) - 1)`: the n low bits of b. */
  function LowBits(b: nat, n: nat): (r: nat)
    ensures r < Pow2(n)
    ensures r <= b
  {
    if n == 0 then 0 else b % 2 + 2 * LowBits(b / 2, n - 1)
  }

  lemma {:induction false} LowBitsStep(b: nat, n: nat)
    ensures LowBits(b, n + 1) == LowBits(b, n) + (if ByteBit(b, n) == 1 then Pow2(n) else 0)
  {
    if n > 0 {
      LowBitsStep(b / 2, n - 1);
    }
  }

  lemma {:induction false} LowBitsOfSmall(b: nat, n: nat)
    requires b < Pow2(n)
    ensures LowBits(b, n) == b
  {
    if n > 0 {
      LowBitsOfSmall(b / 2, n - 1);
    }
  }

  lemma {:induction false} Pow2Monotone(m: nat, n: nat)
    requires m <= n
    ensures Pow2(m) <= Pow2(n)
  {
    if m < n {
      Pow2Monotone(m, n - 1);
    }
  }

  lemma {:induction false} MulAssoc(a: nat, b: nat, c: nat)
    ensures (a * b) * c == a * (b * c)
  {
    if a > 0 {
      MulAssoc(a - 1, b, c);
      assert (a * b) * c == ((a - 1) * b) * c + b * c;
    }
  }

  /** Window j of n windows of spb samples ends at (j + 1) * spb, inside the n * spb samples. */
  lemma WindowBound(j: nat, n: nat, spb: nat)
    requires j < n
    ensures j * spb + spb == (j + 1) * spb <= spb * n
  {
    MulMonotone(j + 1, n, spb);
  }

  lemma MulNonNegative(a: nat, b: nat)
    ensures 0 <= a * b
  {
  }

  lemma MulComm(a: nat, b: nat)
    ensures a * b == b * a
  {
  }

  lemma MulMonotone(a: nat, b: nat, c: nat)
    requires a <= b
    ensures a * c <= b * c
  {
    assert b * c == a * c + (b - a) * c;
  }
}
