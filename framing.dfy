/**
 * FrameCodec and the stream specification: the sample stream `encode_kcs`
 * produces for a byte sequence, the byte sequence `decode_kcs` recovers from a
 * sample stream, and the round trip between them.
 */
module Framing {
  import opened KcsTypes
  import opened Parity
  import opened Tone

  /** The data bits of b, least significant first. */
  function DataBitsOf(b: byte, n: nat): (bits: seq<nat>)
    ensures |bits| == n
  {
    seq(n, j requires 0 <= j < n => ByteBit(b, j))
  }

  /** n stop bits. */
  function StopBitsOf(n: nat): (bits: seq<nat>)
    ensures |bits| == n
  {
    seq(n, _ => 1)
  }

  /** The bits of one serial character, in transmission order. */
  function FrameBitsOf(b: byte, fmt: SerialFormat): (bits: seq<nat>)
    ensures |bits| == BitsPerChar(fmt)
    ensures bits[0] == 0
    ensures forall j :: 0 <= j < fmt.dataBits ==> bits[1 + j] == ByteBit(b, j)
    ensures fmt.parity != 'N' ==> bits[1 + fmt.dataBits] == ParityOf(b, fmt.parity)
    ensures forall k :: 1 + fmt.dataBits + ParityBitCount(fmt) <= k < |bits| ==> bits[k] == 1
    ensures forall k :: 0 <= k < |bits| ==> bits[k] <= 1
  {
    [0] + DataBitsOf(b, fmt.dataBits)
    + (if fmt.parity == 'N' then [] else [ParityOf(b, fmt.parity)])
    + StopBitsOf(fmt.stopBits)
  }

  /** The windows of a bit sequence, back to back. */
  function Windows(bits: seq<nat>, spb: nat): seq<int16>
  {
    if bits == [] then [] else Window(bits[0], spb) + Windows(bits[1..], spb)
  }

  lemma {:induction false} WindowsLength(bits: seq<nat>, spb: nat)
    ensures |Windows(bits, spb)| == |bits| * spb
  {
    if bits != [] {
      WindowsLength(bits[1..], spb);
    }
  }

  lemma {:induction false} WindowsAppend(a: seq<nat>, b: seq<nat>, spb: nat)
    ensures Windows(a + b, spb) == Windows(a, spb) + Windows(b, spb)
  {
    if a == [] {
      assert a + b == b;
    } else {
      assert (a + b)[1..] == a[1..] + b;
      WindowsAppend(a[1..], b, spb);
    }
  }

  /** Window j of a bit sequence holds the tone of bit j. */
  lemma {:induction false} WindowsSlice(bits: seq<nat>, spb: nat, j: nat)
    requires j < |bits|
    ensures |Windows(bits, spb)| == |bits| * spb
    ensures 0 <= j * spb && (j + 1) * spb <= |bits| * spb
    ensures Windows(bits, spb)[j * spb .. (j + 1) * spb] == Window(bits[j], spb)
  {
    MulMonotone(j + 1, |bits|, spb);
    WindowsLength(bits, spb);
    if j > 0 {
      WindowsSlice(bits[1..], spb, j - 1);
      var rest := Windows(bits[1..], spb);
      assert Windows(bits, spb) == Window(bits[0], spb) + rest;
      assert j * spb == spb + (j - 1) * spb;
      assert Windows(bits, spb)[j * spb .. (j + 1) * spb] == rest[(j - 1) * spb .. j * spb];
    }
  }

  /** The samples of one character: a window of spb samples for each of its bits. */
  function FrameSamples(b: byte, fmt: SerialFormat, spb: nat): (r: seq<int16>)
    ensures |r| == BitsPerChar(fmt) * spb
  {
    WindowsLength(FrameBitsOf(b, fmt), spb);
    Windows(FrameBitsOf(b, fmt), spb)
  }

  /**
   * The sample stream for a byte sequence: one character per byte, no gaps between
   * them, so |data| * (1 + data bits + parity bit + stop bits) * spb samples.
   */
  function EncodeSpec(data: seq<byte>, fmt: SerialFormat, spb: nat): (out: seq<int16>)
    ensures |out| == |data| * (BitsPerChar(fmt) * spb)
  {
    if data == [] then []
    else
      LengthStep(|data|, BitsPerChar(fmt) * spb);
      FrameSamples(data[0], fmt, spb) + EncodeSpec(data[1..], fmt, spb)
  }

  lemma LengthStep(n: nat, L: nat)
    requires n >= 1
    ensures n * L == L + (n - 1) * L
  {
  }

  lemma {:induction false} EncodeAppend(data: seq<byte>, b: byte, fmt: SerialFormat, spb: nat)
    ensures EncodeSpec(data + [b], fmt, spb) == EncodeSpec(data, fmt, spb) + FrameSamples(b, fmt, spb)
  {
    if data == [] {
      assert [b][1..] == [];
    } else {
      assert (data + [b])[1..] == data[1..] + [b];
      EncodeAppend(data[1..], b, fmt, spb);
    }
  }

  /** Encoding is a homomorphism from concatenation of bytes to concatenation of samples. */
  lemma {:induction false} EncodeConcat(a: seq<byte>, b: seq<byte>, fmt: SerialFormat, spb: nat)
    ensures EncodeSpec(a + b, fmt, spb) == EncodeSpec(a, fmt, spb) + EncodeSpec(b, fmt, spb)
  {
    if a != [] {
      var head := FrameSamples(a[0], fmt, spb);
      assert (a + b)[0] == a[0] && (a + b)[1..] == a[1..] + b;
      assert EncodeSpec(a + b, fmt, spb) == head + EncodeSpec(a[1..] + b, fmt, spb);
      EncodeConcat(a[1..], b, fmt, spb);
      assert EncodeSpec(a, fmt, spb) == head + EncodeSpec(a[1..], fmt, spb);
    } else {
      assert a + b == b;
    }
  }

  /** Character k of the stream occupies samples k * L .. (k + 1) * L, L being the character length. */
  lemma EncodeFrameSlice(data: seq<byte>, fmt: SerialFormat, spb: nat, k: nat, L: nat)
    requires k < |data| && L == BitsPerChar(fmt) * spb
    ensures k * L + L <= |EncodeSpec(data, fmt, spb)|
    ensures EncodeSpec(data, fmt, spb)[k * L .. k * L + L] == FrameSamples(data[k], fmt, spb)
  {
    var pre, post := data[..k], data[k + 1..];
    assert data == pre + [data[k]] + post;
    EncodeConcat(pre + [data[k]], post, fmt, spb);
    EncodeAppend(pre, data[k], fmt, spb);
    MidSlice(EncodeSpec(pre, fmt, spb), FrameSamples(data[k], fmt, spb), EncodeSpec(post, fmt, spb));
  }

  /** The middle piece of a + f + b sits right after a. */
  lemma MidSlice(a: seq<int16>, f: seq<int16>, b: seq<int16>)
    ensures (a + f + b)[|a| .. |a| + |f|] == f
  {
  }

  /**
   * Frame layout: window j of character k starts at k * L + j * spb, where L is the
   * character length, and holds the tone of bit j of that character.
   */
  lemma EncodeLayout(data: seq<byte>, fmt: SerialFormat, spb: nat, L: nat, k: nat, j: nat)
    requires L == BitsPerChar(fmt) * spb
    requires k < |data| && j < BitsPerChar(fmt)
    ensures 0 <= k * L + j * spb && k * L + j * spb + spb <= |EncodeSpec(data, fmt, spb)|
    ensures EncodeSpec(data, fmt, spb)[k * L + j * spb .. k * L + j * spb + spb]
            == Window(FrameBitsOf(data[k], fmt)[j], spb)
  {
    EncodeFrameSlice(data, fmt, spb, k, L);
    var bits := FrameBitsOf(data[k], fmt);
    WindowsSlice(bits, spb, j);
    MulNonNegative(k, L);
    MulNonNegative(j, spb);
    assert |bits| * spb == L && (j + 1) * spb == j * spb + spb;
    PieceOfPiece(EncodeSpec(data, fmt, spb), FrameSamples(data[k], fmt, spb), k * L, L, j * spb, spb);
  }

  /** A piece at x of the piece at a of s is the piece at a + x of s. */
  lemma PieceOfPiece(s: seq<int16>, frame: seq<int16>, a: nat, L: nat, x: nat, n: nat)
    requires a + L <= |s| && s[a .. a + L] == frame && x + n <= L
    ensures a + x + n <= |s| && s[a + x .. a + x + n] == frame[x .. x + n]
  {
    SubSlice(s, a, a + L, x, x + n);
  }

  lemma SubSlice(s: seq<int16>, a: nat, b: nat, x: nat, y: nat)
    requires a <= b <= |s| && x <= y <= b - a
    ensures s[a + x .. a + y] == s[a..b][x..y]
  {
    assert forall i :: 0 <= i < y - x ==> s[a + x .. a + y][i] == s[a + x + i] == s[a..b][x..y][i];
  }

  /**
   * The byte assembled from data windows 1..n of a character (window 0 is the start
   * bit): bit b - 1 of the result is the classification of window b.
   */
  function DataByte(frame: seq<int16>, spb: nat, n: nat): (v: nat)
    requires (n + 1) * spb <= |frame|
    ensures v < Pow2(n)
  {
    if n == 0 then 0
    else
      DataByte(frame, spb, n - 1)
      + (if Classify(frame[n * spb .. (n + 1) * spb]) == 1 then Pow2(n - 1) else 0)
  }

  /**
   * The byte `decode_kcs` assembles from the n data windows of a character: it is a
   * `uint8_t`, so the windows from the ninth on do not reach it.
   */
  function CharByte(frame: seq<int16>, spb: nat, n: nat): (v: byte)
    requires (n + 1) * spb <= |frame|
    ensures v < Pow2(KeptBits(n))
    ensures n <= 8 ==> v == DataByte(frame, spb, n)
  {
    MulMonotone(KeptBits(n) + 1, n + 1, spb);
    Pow2Monotone(KeptBits(n), 8);
    DataByte(frame, spb, KeptBits(n))
  }

  /** A character's samples hold its start window and its data windows. */
  lemma CharBounds(fmt: SerialFormat, spb: nat)
    ensures spb <= spb * BitsPerChar(fmt)
    ensures (fmt.dataBits + 1) * spb <= spb * BitsPerChar(fmt)
  {
    MulMonotone(1, BitsPerChar(fmt), spb);
    MulMonotone(fmt.dataBits + 1, BitsPerChar(fmt), spb);
    MulComm(BitsPerChar(fmt), spb);
  }

  /**
   * The decoder state machine over the samples r not yet consumed, with the bytes
   * acc produced so far. While a whole character still fits: a window that does not
   * classify as 0 moves the search on by one sample; otherwise, unless the output
   * is full, one character is consumed and its data byte emitted. Parity and stop
   * windows are consumed without being looked at.
   */
  function DecodeRest(r: seq<int16>, fmt: SerialFormat, spb: nat, acc: seq<byte>): (out: seq<byte>)
    requires |acc| <= BUFFER_SIZE
    ensures |out| <= BUFFER_SIZE
    ensures acc <= out
    decreases BUFFER_SIZE - |acc|, |r|
  {
    var L := spb * BitsPerChar(fmt);
    CharBounds(fmt, spb);
    if |r| < L then acc
    else if Classify(r[..spb]) != 0 then DecodeRest(r[1..], fmt, spb, acc)
    else if |acc| >= BUFFER_SIZE then acc
    else
      var v := CharByte(r[..L], spb, fmt.dataBits);
      DecodeRest(r[L..], fmt, spb, acc + [v])
  }

  /** A window at i that is not a start bit moves the search on by one sample. */
  lemma DecodeSkip(s: seq<int16>, i: nat, fmt: SerialFormat, spb: nat, acc: seq<byte>)
    requires |acc| <= BUFFER_SIZE
    requires i + spb * BitsPerChar(fmt) <= |s|
    requires spb <= spb * BitsPerChar(fmt) && Classify(s[i..i + spb]) != 0
    ensures DecodeRest(s[i..], fmt, spb, acc) == DecodeRest(s[i + 1..], fmt, spb, acc)
  {
    assert s[i..][..spb] == s[i..i + spb];
    assert s[i..][1..] == s[i + 1..];
  }

  /**
   * A start bit at i: with the output full the decoder stops; otherwise it emits
   * the data byte v of the character at i..next and resumes at next.
   */
  lemma DecodeTake(s: seq<int16>, i: nat, next: nat, v: nat, fmt: SerialFormat, spb: nat, acc: seq<byte>)
    requires |acc| <= BUFFER_SIZE
    requires next == i + spb * BitsPerChar(fmt) <= |s|
    requires spb <= spb * BitsPerChar(fmt) && Classify(s[i..i + spb]) == 0
    requires (fmt.dataBits + 1) * spb <= spb * BitsPerChar(fmt)
    requires v == CharByte(s[i..next], spb, fmt.dataBits)
    ensures v < 256
    ensures |acc| >= BUFFER_SIZE ==> DecodeRest(s[i..], fmt, spb, acc) == acc
    ensures |acc| < BUFFER_SIZE ==> DecodeRest(s[i..], fmt, spb, acc) == DecodeRest(s[next..], fmt, spb, acc + [v as byte])
  {
    var L := spb * BitsPerChar(fmt);
    assert s[i..][..spb] == s[i..i + spb];
    assert s[i..][..L] == s[i..next];
    assert s[i..][L..] == s[next..];
  }

  /** With fewer samples left than a character needs, the decoder stops. */
  lemma DecodeEnd(s: seq<int16>, i: nat, fmt: SerialFormat, spb: nat, acc: seq<byte>)
    requires |acc| <= BUFFER_SIZE
    requires i <= |s| < i + spb * BitsPerChar(fmt)
    ensures DecodeRest(s[i..], fmt, spb, acc) == acc
  {
  }

  /**
   * The bytes `decode_kcs` produces from a whole sample stream: never more than the
   * output buffer holds, and nothing from a stream shorter than one character.
   */
  function Decode(s: seq<int16>, fmt: SerialFormat, spb: nat): (r: seq<byte>)
    ensures |r| <= BUFFER_SIZE
    ensures |s| < spb * BitsPerChar(fmt) ==> r == []
  {
    DecodeRest(s, fmt, spb, [])
  }

  /** Every byte of s is below 2^n. */
  predicate AllFit(s: seq<byte>, n: nat)
  {
    forall k :: 0 <= k < |s| ==> s[k] < Pow2(n)
  }

  lemma AllFitAppend(s: seq<byte>, x: byte, n: nat)
    requires AllFit(s, n) && x < Pow2(n)
    ensures AllFit(s + [x], n)
  {
  }

  /** Every decoded byte fits in the format's data bits. */
  lemma {:induction false} DecodeBytesFit(r: seq<int16>, fmt: SerialFormat, spb: nat, acc: seq<byte>)
    requires |acc| <= BUFFER_SIZE
    requires AllFit(acc, KeptBits(fmt.dataBits))
    ensures AllFit(DecodeRest(r, fmt, spb, acc), KeptBits(fmt.dataBits))
    decreases BUFFER_SIZE - |acc|, |r|
  {
    var L := spb * BitsPerChar(fmt);
    CharBounds(fmt, spb);
    if |r| < L {
    } else if Classify(r[..spb]) != 0 {
      DecodeBytesFit(r[1..], fmt, spb, acc);
    } else if |acc| >= BUFFER_SIZE {
    } else {
      var x := CharByte(r[..L], spb, fmt.dataBits);
      AllFitAppend(acc, x, KeptBits(fmt.dataBits));
      DecodeBytesFit(r[L..], fmt, spb, acc + [x]);
    }
  }

  /** The window at sample p of r classifies as a start bit. */
  predicate StartBitAt(r: seq<int16>, p: nat, spb: nat)
  {
    p + spb <= |r| && Classify(r[p..p + spb]) == 0
  }

  /** "No start bit anywhere": no window placed where a whole character still fits classifies as 0. */
  predicate NoStartBit(r: seq<int16>, fmt: SerialFormat, spb: nat)
  {
    forall p: nat :: p + spb * BitsPerChar(fmt) <= |r| ==> !StartBitAt(r, p, spb)
  }

  /** A stream in which no start bit can be found decodes to nothing. */
  lemma {:induction false} DecodeSilence(r: seq<int16>, fmt: SerialFormat, spb: nat, acc: seq<byte>)
    requires |acc| <= BUFFER_SIZE
    requires NoStartBit(r, fmt, spb)
    ensures DecodeRest(r, fmt, spb, acc) == acc
    decreases |r|
  {
    var L := spb * BitsPerChar(fmt);
    MulMonotone(1, BitsPerChar(fmt), spb);
    if |r| >= L {
      assert !StartBitAt(r, 0, spb);
      assert r[0..spb] == r[..spb];
      var r' := r[1..];
      forall p: nat | p + L <= |r'|
        ensures !StartBitAt(r', p, spb)
      {
        assert !StartBitAt(r, p + 1, spb);
        assert r'[p..p + spb] == r[p + 1..p + 1 + spb];
      }
      DecodeSilence(r', fmt, spb, acc);
    }
  }

  /** With a zero window length nothing is read: every character decodes to 0 until the output is full. */
  lemma {:induction false} DecodeZeroWindow(r: seq<int16>, fmt: SerialFormat, acc: seq<byte>)
    requires |acc| <= BUFFER_SIZE
    ensures DecodeRest(r, fmt, 0, acc) == acc + seq(BUFFER_SIZE - |acc|, _ => 0)
    decreases BUFFER_SIZE - |acc|
  {
    if |acc| < BUFFER_SIZE {
      assert r[..0] == [];
      DataByteZeroWindow(r[..0], KeptBits(fmt.dataBits));
      DecodeZeroWindow(r, fmt, acc + [0]);
      assert acc + [0] + seq(BUFFER_SIZE - |acc| - 1, _ => 0) == acc + seq(BUFFER_SIZE - |acc|, _ => 0);
    }
  }

  lemma {:induction false} DataByteZeroWindow(frame: seq<int16>, n: nat)
    ensures DataByte(frame, 0, n) == 0
  {
    if n > 0 {
      DataByteZeroWindow(frame, n - 1);
      assert frame[n * 0 .. (n + 1) * 0] == [];
    }
  }

  /** Window j of frame, a data window, classifies as bit j - 1 of b. */
  predicate DataWindowOk(frame: seq<int16>, spb: nat, b: byte, j: nat)
  {
    MulMonotone(j, j + 1, spb);
    1 <= j && (j + 1) * spb <= |frame| && Classify(frame[j * spb .. (j + 1) * spb]) == ByteBit(b, j - 1)
  }

  /** A frame whose data windows 1..n classify as the bits of b assembles the low n bits of b. */
  lemma {:induction false} DataByteOfBits(frame: seq<int16>, spb: nat, b: byte, n: nat)
    requires (n + 1) * spb <= |frame|
    requires forall j :: 1 <= j <= n ==> DataWindowOk(frame, spb, b, j)
    ensures DataByte(frame, spb, n) == LowBits(b, n)
  {
    if n > 0 {
      assert DataWindowOk(frame, spb, b, n);
      MulMonotone(n, n + 1, spb);
      DataByteOfBits(frame, spb, b, n - 1);
      LowBitsStep(b, n - 1);
    }
  }

  /** Decoding a synthesized character yields the low n bits of its byte. */
  lemma FrameDataByte(b: byte, fmt: SerialFormat, spb: nat, n: nat)
    requires n <= fmt.dataBits && MarkReliable(spb)
    ensures (n + 1) * spb <= |FrameSamples(b, fmt, spb)|
    ensures DataByte(FrameSamples(b, fmt, spb), spb, n) == LowBits(b, n)
  {
    var frame := FrameSamples(b, fmt, spb);
    FrameBitWindow(b, fmt, spb, n);
    forall j | 1 <= j <= n
      ensures DataWindowOk(frame, spb, b, j)
    {
      FrameBitWindow(b, fmt, spb, j);
    }
    DataByteOfBits(frame, spb, b, n);
  }

  /** Window n of a synthesized character, for 1 <= n <= data bits, classifies as data bit n - 1. */
  lemma FrameBitWindow(b: byte, fmt: SerialFormat, spb: nat, n: nat)
    requires n <= fmt.dataBits && MarkReliable(spb)
    ensures (n + 1) * spb <= |FrameSamples(b, fmt, spb)|
    ensures n >= 1 ==> Classify(FrameSamples(b, fmt, spb)[n * spb .. (n + 1) * spb]) == ByteBit(b, n - 1)
  {
    var bits := FrameBitsOf(b, fmt);
    WindowsSlice(bits, spb, n);
    if n >= 1 {
      assert bits[n] == ByteBit(b, n - 1);
      ToneRoundTrip(bits[n], spb);
    }
  }

  /** A synthesized character is L samples long and its first window classifies as a start bit. */
  lemma FrameStart(b: byte, fmt: SerialFormat, spb: nat)
    ensures |FrameSamples(b, fmt, spb)| == spb * BitsPerChar(fmt)
    ensures spb <= spb * BitsPerChar(fmt) && (fmt.dataBits + 1) * spb <= spb * BitsPerChar(fmt)
    ensures Classify(FrameSamples(b, fmt, spb)[0..spb]) == 0
  {
    var bits := FrameBitsOf(b, fmt);
    WindowsSlice(bits, spb, 0);
    assert 0 * spb == 0 && (0 + 1) * spb == spb;
    MulComm(BitsPerChar(fmt), spb);
    CharBounds(fmt, spb);
    SpaceAlwaysClassifiesZero(spb);
  }

  /** Each byte of data cut to its n low bits. */
  function Masked(data: seq<byte>, n: nat): (m: seq<byte>)
    requires n <= 8
    ensures |m| == |data|
    ensures forall k :: 0 <= k < |data| ==> m[k] == LowBits(data[k], n)
  {
    if data == [] then []
    else
      Pow2Monotone(n, 8);
      [LowBits(data[0], n) as byte] + Masked(data[1..], n)
  }

  /** What fits in the output buffer: the first BUFFER_SIZE bytes of s. */
  function Capped(s: seq<byte>): (c: seq<byte>)
    ensures |c| <= BUFFER_SIZE && c <= s
    ensures |s| <= BUFFER_SIZE ==> c == s
  {
    if |s| <= BUFFER_SIZE then s else s[..BUFFER_SIZE]
  }

  /** The stream of data as a decoder state with acc already produced: the rest of data is recovered, cut at capacity. */
  lemma {:induction false} RoundTripRest(data: seq<byte>, fmt: SerialFormat, spb: nat, acc: seq<byte>)
    requires MarkReliable(spb) && |acc| <= BUFFER_SIZE
    ensures DecodeRest(EncodeSpec(data, fmt, spb), fmt, spb, acc) == Capped(acc + Masked(data, KeptBits(fmt.dataBits)))
  {
    if data == [] {
      RoundTripEmpty(fmt, spb, acc);
    } else {
      RoundTripStep(data, fmt, spb, acc);
      var m := LowBits(data[0], KeptBits(fmt.dataBits)) as byte;
      MaskedCons(data, KeptBits(fmt.dataBits), acc);
      if |acc| < BUFFER_SIZE {
        RoundTripRest(data[1..], fmt, spb, acc + [m]);
      }
    }
  }

  lemma RoundTripEmpty(fmt: SerialFormat, spb: nat, acc: seq<byte>)
    requires MarkReliable(spb) && |acc| <= BUFFER_SIZE
    ensures DecodeRest(EncodeSpec([], fmt, spb), fmt, spb, acc) == Capped(acc + Masked([], KeptBits(fmt.dataBits)))
  {
    WindowBound(0, BitsPerChar(fmt), spb);
    var r: seq<int16> := [];
    DecodeEnd(r, 0, fmt, spb, acc);
    assert r[0..] == r && acc + Masked([], KeptBits(fmt.dataBits)) == acc;
  }

  /** Masking data after acc is masking its first byte, then the rest; once acc fills the buffer, nothing more fits. */
  lemma MaskedCons(data: seq<byte>, n: nat, acc: seq<byte>)
    requires n <= 8 && data != [] && |acc| <= BUFFER_SIZE
    ensures LowBits(data[0], n) < 256
    ensures acc + [LowBits(data[0], n) as byte] + Masked(data[1..], n) == acc + Masked(data, n)
    ensures |acc| >= BUFFER_SIZE ==> Capped(acc + Masked(data, n)) == acc
  {
    Pow2Monotone(n, 8);
    var m := Masked(data, n);
    var x := LowBits(data[0], n) as byte;
    var rest := Masked(data[1..], n);
    assert m == [x] + rest;
    AppendCons(acc, x, rest, m);
    if |acc| >= BUFFER_SIZE {
      CappedFull(acc, m);
    }
  }

  lemma AppendCons(acc: seq<byte>, x: byte, rest: seq<byte>, m: seq<byte>)
    requires m == [x] + rest
    ensures acc + [x] + rest == acc + m
  {
  }

  lemma CappedFull(acc: seq<byte>, m: seq<byte>)
    requires |acc| == BUFFER_SIZE
    ensures Capped(acc + m) == acc
  {
    assert (acc + m)[..|acc|] == acc;
  }

  /** The first character of the stream of data is found at 0 and decodes to its masked byte. */
  lemma RoundTripStep(data: seq<byte>, fmt: SerialFormat, spb: nat, acc: seq<byte>)
    requires MarkReliable(spb) && |acc| <= BUFFER_SIZE && data != []
    ensures |acc| >= BUFFER_SIZE ==> DecodeRest(EncodeSpec(data, fmt, spb), fmt, spb, acc) == acc
    ensures LowBits(data[0], KeptBits(fmt.dataBits)) < 256
    ensures |acc| < BUFFER_SIZE ==>
              DecodeRest(EncodeSpec(data, fmt, spb), fmt, spb, acc)
              == DecodeRest(EncodeSpec(data[1..], fmt, spb), fmt, spb, acc + [LowBits(data[0], KeptBits(fmt.dataBits)) as byte])
  {
    FrameStart(data[0], fmt, spb);
    FrameDataByte(data[0], fmt, spb, KeptBits(fmt.dataBits));
    DecodeFrameThen(FrameSamples(data[0], fmt, spb), EncodeSpec(data[1..], fmt, spb), fmt, spb, acc,
                    LowBits(data[0], KeptBits(fmt.dataBits)));
  }

  /** A character whose start window classifies as 0, followed by rest: the decoder emits its data byte and goes on with rest. */
  lemma DecodeFrameThen(frame: seq<int16>, rest: seq<int16>, fmt: SerialFormat, spb: nat, acc: seq<byte>, m: nat)
    requires |acc| <= BUFFER_SIZE
    requires |frame| == spb * BitsPerChar(fmt)
    requires spb <= |frame| && (fmt.dataBits + 1) * spb <= |frame|
    requires Classify(frame[0..spb]) == 0 && m == CharByte(frame, spb, fmt.dataBits)
    ensures m < 256
    ensures |acc| >= BUFFER_SIZE ==> DecodeRest(frame + rest, fmt, spb, acc) == acc
    ensures |acc| < BUFFER_SIZE ==> DecodeRest(frame + rest, fmt, spb, acc) == DecodeRest(rest, fmt, spb, acc + [m as byte])
  {
    var r := frame + rest;
    var L := |frame|;
    assert r[0..0 + spb] == frame[0..spb] && r[0..L] == frame && r[L..] == rest && r[0..] == r;
    DecodeTake(r, 0, L, m, fmt, spb, acc);
  }

  /**
   * Round trip: with a reliable window length, decoding the stream of data gives
   * the bytes of data that fit in the output buffer, each masked to the data bits.
   */
  lemma RoundTrip(data: seq<byte>, fmt: SerialFormat, spb: nat)
    requires MarkReliable(spb)
    ensures var n := if |data| <= BUFFER_SIZE then |data| else BUFFER_SIZE;
            Decode(EncodeSpec(data, fmt, spb), fmt, spb) == Masked(data[..n], KeptBits(fmt.dataBits))
  {
    RoundTripRest(data, fmt, spb, []);
    var n := if |data| <= BUFFER_SIZE then |data| else BUFFER_SIZE;
    assert [] + Masked(data, KeptBits(fmt.dataBits)) == Masked(data, KeptBits(fmt.dataBits));
    assert Capped(Masked(data, KeptBits(fmt.dataBits))) == Masked(data[..n], KeptBits(fmt.dataBits));
  }

  /** With 8 or more data bits the round trip is exact for every input the output buffer can hold, whatever the stop bits and parity. */
  lemma RoundTripEightBits(data: seq<byte>, fmt: SerialFormat, spb: nat)
    requires fmt.dataBits >= 8 && MarkReliable(spb) && |data| <= BUFFER_SIZE
    ensures Decode(EncodeSpec(data, fmt, spb), fmt, spb) == data
  {
    RoundTrip(data, fmt, spb);
    forall k | 0 <= k < |data|
      ensures LowBits(data[k], 8) == data[k]
    {
      LowBitsOfSmall(data[k], 8);
    }
    assert data[..|data|] == data;
  }

  /** Without a reliable window length every window of a synthesized character, start and data alike, classifies as 0. */
  lemma UnreliableFrameWindow(b: byte, fmt: SerialFormat, spb: nat, n: nat)
    requires n <= fmt.dataBits && !MarkReliable(spb)
    ensures (n + 1) * spb <= |FrameSamples(b, fmt, spb)|
    ensures Classify(FrameSamples(b, fmt, spb)[n * spb .. (n + 1) * spb]) == 0
  {
    var bits := FrameBitsOf(b, fmt);
    WindowsSlice(bits, spb, n);
    if bits[n] == 0 {
      SpaceAlwaysClassifiesZero(spb);
    } else {
      assert bits[n] == 1;
      MarkClassifiesOne(spb);
    }
  }

  /** Without a reliable window length a synthesized character decodes as byte 0, whatever its byte. */
  lemma UnreliableCharByte(b: byte, fmt: SerialFormat, spb: nat)
    requires !MarkReliable(spb)
    ensures (fmt.dataBits + 1) * spb <= |FrameSamples(b, fmt, spb)|
    ensures CharByte(FrameSamples(b, fmt, spb), spb, fmt.dataBits) == 0
  {
    var frame := FrameSamples(b, fmt, spb);
    var n := KeptBits(fmt.dataBits);
    UnreliableFrameWindow(b, fmt, spb, fmt.dataBits);
    MulMonotone(n + 1, fmt.dataBits + 1, spb);
    UnreliableDataWindows(b, fmt, spb, n);
    DataByteOfBits(frame, spb, 0, n);
  }

  /** Without a reliable window length data windows 1..n of a synthesized character read as the bits of byte 0. */
  lemma UnreliableDataWindows(b: byte, fmt: SerialFormat, spb: nat, n: nat)
    requires n <= fmt.dataBits && !MarkReliable(spb)
    ensures forall j :: 1 <= j <= n ==> DataWindowOk(FrameSamples(b, fmt, spb), spb, 0, j)
  {
    forall j | 1 <= j <= n
      ensures DataWindowOk(FrameSamples(b, fmt, spb), spb, 0, j)
    {
      UnreliableFrameWindow(b, fmt, spb, j);
      assert ByteBit(0, j - 1) == 0;
    }
  }

  /** Without a reliable window length the decoder state acc followed by the stream of data yields one 0 per byte, cut at capacity. */
  lemma {:induction false} UnreliableRest(data: seq<byte>, fmt: SerialFormat, spb: nat, acc: seq<byte>)
    requires spb >= 1 && !MarkReliable(spb) && |acc| <= BUFFER_SIZE
    ensures DecodeRest(EncodeSpec(data, fmt, spb), fmt, spb, acc) == Capped(acc + Masked(data, 0))
  {
    if data == [] {
      WindowBound(0, BitsPerChar(fmt), spb);
      var r: seq<int16> := [];
      DecodeEnd(r, 0, fmt, spb, acc);
      assert r[0..] == r && acc + Masked([], 0) == acc;
    } else {
      FrameStart(data[0], fmt, spb);
      UnreliableCharByte(data[0], fmt, spb);
      DecodeFrameThen(FrameSamples(data[0], fmt, spb), EncodeSpec(data[1..], fmt, spb), fmt, spb, acc, 0);
      MaskedCons(data, 0, acc);
      if |acc| < BUFFER_SIZE {
        UnreliableRest(data[1..], fmt, spb, acc + [0]);
      }
    }
  }

  /**
   * The converse of the round trip: for a window length MarkReliable rejects, every
   * character of the stream decodes as byte 0.
   */
  lemma UnreliableDecodesZeros(data: seq<byte>, fmt: SerialFormat, spb: nat)
    requires spb >= 1 && !MarkReliable(spb)
    ensures var n := if |data| <= BUFFER_SIZE then |data| else BUFFER_SIZE;
            Decode(EncodeSpec(data, fmt, spb), fmt, spb) == Masked(data[..n], 0)
  {
    UnreliableRest(data, fmt, spb, []);
    var n := if |data| <= BUFFER_SIZE then |data| else BUFFER_SIZE;
    assert [] + Masked(data, 0) == Masked(data, 0);
    assert Capped(Masked(data, 0)) == Masked(data[..n], 0);
  }

  /**
   * With at least one data bit, every stream the output buffer can hold decodes to its
   * bytes masked to the data bits exactly when MarkReliable(spb) holds.
   */
  lemma RoundTripIffReliable(fmt: SerialFormat, spb: nat)
    requires spb >= 1 && fmt.dataBits >= 1
    ensures MarkReliable(spb) <==>
            forall data: seq<byte> :: |data| <= BUFFER_SIZE ==>
              Decode(EncodeSpec(data, fmt, spb), fmt, spb) == Masked(data, KeptBits(fmt.dataBits))
  {
    if MarkReliable(spb) {
      forall data: seq<byte> | |data| <= BUFFER_SIZE
        ensures Decode(EncodeSpec(data, fmt, spb), fmt, spb) == Masked(data, KeptBits(fmt.dataBits))
      {
        RoundTrip(data, fmt, spb);
        assert data[..|data|] == data;
      }
    } else {
      var one: seq<byte> := [1];
      UnreliableDecodesZeros(one, fmt, spb);
      assert one[..1] == one;
      assert LowBits(1, KeptBits(fmt.dataBits)) == 1;
      assert Decode(EncodeSpec(one, fmt, spb), fmt, spb)[0] == 0;
      assert Masked(one, KeptBits(fmt.dataBits))[0] == 1;
    }
  }

  /** The command-line tool's setting: 8 data bits, 1 stop bit, no parity at 1200 baud (36 samples per bit). */
  lemma RoundTrip8N1At1200(data: seq<byte>)
    requires |data| <= BUFFER_SIZE
    ensures Decode(EncodeSpec(data, SerialFormat(8, 1, 'N'), 36), SerialFormat(8, 1, 'N'), 36) == data
    ensures |EncodeSpec(data, SerialFormat(8, 1, 'N'), 36)| == 360 * |data|
  {
    var fmt := SerialFormat(8, 1, 'N');
    assert MarkReliable(36) && BitsPerChar(fmt) * 36 == 360;
    RoundTripEightBits(data, fmt, 36);
  }

  /** Byte 0x41 in 8N1 at 1200 baud: 360 samples that decode back to [0x41]. */
  lemma EncodeDecode0x41()
    ensures |EncodeSpec([0x41], SerialFormat(8, 1, 'N'), 36)| == 360
    ensures Decode(EncodeSpec([0x41], SerialFormat(8, 1, 'N'), 36), SerialFormat(8, 1, 'N'), 36) == [0x41]
  {
    RoundTrip8N1At1200([0x41]);
  }
}
