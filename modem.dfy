/**
 * ModemStream: `encode_kcs` fills a freshly allocated sample buffer character by
 * character; `decode_kcs` scans a sample buffer with its start-bit search and
 * writes the recovered bytes into a caller-provided buffer of BUFFER_SIZE bytes.
 */
module Modem {
  import opened KcsTypes
  import opened Parity
  import opened Tone
  import opened Framing

  /** `AudioBuffer`: a sample array (null when none is allocated) and its sample count. */
  class AudioBuffer {
    var samples: array?<int16>
    var sampleCount: nat

    /** `AudioBuffer audio = {0}`. */
    constructor ()
      ensures samples == null && sampleCount == 0
    {
      samples := null;
      sampleCount := 0;
    }

    /** The count never exceeds the array; without an array it is 0. */
    ghost predicate Valid()
      reads this
    {
      if samples == null then sampleCount == 0 else sampleCount <= samples.Length
    }

    /** The samples the buffer holds. */
    ghost function Samples(): seq<int16>
      reads this, samples
      requires Valid()
    {
      if samples == null then [] else samples[..sampleCount]
    }
  }

  /** Writing one window at index extends the written prefix by that window. */
  lemma PrefixGrows(before: seq<int16>, after: seq<int16>, index: nat, next: nat, w: seq<int16>)
    requires index <= next <= |after| && |before| == |after|
    requires after[..index] == before[..index] && after[index..next] == w
    ensures after[..next] == before[..index] + w
  {
    assert after[..next] == after[..index] + after[index..next];
  }

  /** A write that ends at next leaves everything from end on as it was. */
  lemma TailKept(before: seq<int16>, after: seq<int16>, next: nat, end: nat)
    requires next <= end <= |after| && |before| == |after|
    requires after[next..] == before[next..]
    ensures after[end..] == before[end..]
  {
    assert after[end..] == after[next..][end - next..];
    assert before[end..] == before[next..][end - next..];
  }

  /**
   * Emitting bit k moves window k from the windows still to write to those written:
   * the written windows grow by window k and the rest shrink by spb samples.
   */
  lemma WindowStep(bits: seq<nat>, k: nat, spb: nat)
    requires k < |bits|
    ensures Windows(bits[..k + 1], spb) == Windows(bits[..k], spb) + Window(bits[k], spb)
    ensures |Windows(bits[k..], spb)| == spb + |Windows(bits[k + 1..], spb)|
  {
    assert bits[k..] != [];
    assert bits[..k + 1] == bits[..k] + [bits[k]];
    WindowsAppend(bits[..k], [bits[k]], spb);
    assert [bits[k]][1..] == [];
    assert bits[k..][1..] == bits[k + 1..];
  }

  /**
   * The state of a character being written into s: windows 0..k-1 of bits follow
   * the samples done, sampleIndex is just past them, the remaining windows end at
   * end, and from end on s holds tail.
   */
  ghost predicate Written(s: seq<int16>, sampleIndex: nat, bits: seq<nat>, k: nat, spb: nat,
                          done: seq<int16>, end: nat, tail: seq<int16>)
  {
    k <= |bits| && sampleIndex + |Windows(bits[k..], spb)| == end <= |s|
    && s[..sampleIndex] == done + Windows(bits[..k], spb) && s[end..] == tail
  }

  /** The `generate_bit` call for window k of a character's bits. */
  method EmitWindow(buf: array<int16>, sampleIndex: nat, bit: nat, spb: nat, ghost bits: seq<nat>, ghost k: nat,
                    ghost done: seq<int16>, ghost end: nat, ghost tail: seq<int16>)
    returns (next: nat)
    requires k < |bits| && bits[k] == bit
    requires Written(buf[..], sampleIndex, bits, k, spb, done, end, tail)
    modifies buf
    ensures Written(buf[..], next, bits, k + 1, spb, done, end, tail)
  {
    WindowStep(bits, k, spb);
    ghost var before := buf[..];
    assert before[..sampleIndex] == buf[..sampleIndex];
    next := GenerateBit(buf, sampleIndex, bit, spb);
    TailKept(before, buf[..], next, end);
    PrefixGrows(before, buf[..], sampleIndex, next, Window(bits[k], spb));
    assert buf[..][..next] == buf[..next];
  }

  /**
   * One character of `encode_kcs`: the start window, the data windows least
   * significant bit first, the parity window unless the parity is 'N', and the
   * stop windows, written from index on. The samples before index and after the
   * character are untouched.
   */
  method EncodeChar(buf: array<int16>, index: nat, b: byte, fmt: SerialFormat, spb: nat) returns (next: nat)
    requires index + |FrameSamples(b, fmt, spb)| <= buf.Length
    modifies buf
    ensures next == index + |FrameSamples(b, fmt, spb)|
    ensures buf[..next] == old(buf[..index]) + FrameSamples(b, fmt, spb)
    ensures buf[next..] == old(buf[next..])
  {
    ghost var bits := FrameBitsOf(b, fmt);
    ghost var done := buf[..index];
    ghost var end := index + |FrameSamples(b, fmt, spb)|;
    ghost var tail := buf[end..];
    assert bits[..0] == [] && bits[0..] == bits;
    assert buf[..][..index] == done && buf[..][end..] == tail;
    var sampleIndex: nat := EmitWindow(buf, index, 0, spb, bits, 0, done, end, tail);
    sampleIndex := EmitDataBits(buf, sampleIndex, b, fmt, spb, bits, done, end, tail);
    ghost var k: nat := 1 + fmt.dataBits;
    if fmt.parity != 'N' {
      var parityBit := CalcParity(b, fmt.parity);
      sampleIndex := EmitWindow(buf, sampleIndex, parityBit, spb, bits, k, done, end, tail);
      k := k + 1;
    }
    sampleIndex := EmitStopBits(buf, sampleIndex, fmt.stopBits, spb, bits, k, done, end, tail);
    WrittenAll(buf[..], sampleIndex, bits, spb, done, end, tail);
    next := sampleIndex;
  }

  /** The data-bit loop of `encode_kcs`: bit j of b, least significant first, for j below dataBits. */
  method EmitDataBits(buf: array<int16>, sampleIndex: nat, b: byte, fmt: SerialFormat, spb: nat,
                      ghost bits: seq<nat>, ghost done: seq<int16>, ghost end: nat, ghost tail: seq<int16>)
    returns (next: nat)
    requires bits == FrameBitsOf(b, fmt)
    requires Written(buf[..], sampleIndex, bits, 1, spb, done, end, tail)
    modifies buf
    ensures Written(buf[..], next, bits, 1 + fmt.dataBits, spb, done, end, tail)
  {
    next := sampleIndex;
    var bit := 0;
    while bit < fmt.dataBits
      invariant 0 <= bit <= fmt.dataBits
      invariant Written(buf[..], next, bits, 1 + bit, spb, done, end, tail)
    {
      next := EmitWindow(buf, next, ByteBit(b, bit), spb, bits, 1 + bit, done, end, tail);
      bit := bit + 1;
    }
  }

  /** The stop-bit loop of `encode_kcs`: stopBits windows of bit 1 close the character. */
  method EmitStopBits(buf: array<int16>, sampleIndex: nat, stopBits: nat, spb: nat, ghost bits: seq<nat>,
                      ghost k: nat, ghost done: seq<int16>, ghost end: nat, ghost tail: seq<int16>)
    returns (next: nat)
    requires k + stopBits == |bits|
    requires forall j :: k <= j < |bits| ==> bits[j] == 1
    requires Written(buf[..], sampleIndex, bits, k, spb, done, end, tail)
    modifies buf
    ensures Written(buf[..], next, bits, |bits|, spb, done, end, tail)
  {
    next := sampleIndex;
    var st := 0;
    while st < stopBits
      invariant 0 <= st <= stopBits
      invariant Written(buf[..], next, bits, k + st, spb, done, end, tail)
    {
      next := EmitWindow(buf, next, 1, spb, bits, k + st, done, end, tail);
      st := st + 1;
    }
  }

  /** All windows written: the samples up to end are done followed by every window. */
  lemma WrittenAll(s: seq<int16>, sampleIndex: nat, bits: seq<nat>, spb: nat,
                   done: seq<int16>, end: nat, tail: seq<int16>)
    requires Written(s, sampleIndex, bits, |bits|, spb, done, end, tail)
    ensures sampleIndex == end
    ensures s[..sampleIndex] == done + Windows(bits, spb) && s[sampleIndex..] == tail
  {
    assert bits[..|bits|] == bits && bits[|bits|..] == [];
  }

  /**
   * `encode_kcs`. Null arguments, an empty input or a non-positive baud rate leave
   * audio untouched; a failed allocation (allocOk false) leaves it empty; otherwise
   * audio holds exactly the sample stream of data[..size], one character per byte.
   * spb stands for the samples per bit the source derives from the baud rate.
   */
  method EncodeKcs(data: array?<byte>, size: nat, audio: AudioBuffer?, fmt: SerialFormat,
                   baudRate: int, spb: nat, allocOk: bool)
    requires data != null ==> size <= data.Length
    modifies audio
    ensures (data == null || size == 0 || audio == null || baudRate <= 0) && audio != null ==> unchanged(audio)
    ensures data != null && size > 0 && audio != null && baudRate > 0 && !allocOk ==>
              audio.samples == null && audio.sampleCount == 0
    ensures data != null && size > 0 && audio != null && baudRate > 0 && allocOk ==>
              audio.samples != null && fresh(audio.samples) && audio.Valid()
              && audio.sampleCount == audio.samples.Length == size * (BitsPerChar(fmt) * spb)
              && audio.samples[..] == EncodeSpec(data[..size], fmt, spb)
  {
    if data == null || size == 0 || audio == null || baudRate <= 0 {
      return;
    }
    var parityBit := if fmt.parity == 'N' then 0 else 1;
    var totalBits := size * (1 + fmt.dataBits + parityBit + fmt.stopBits);
    var totalSamples := totalBits * spb;
    if !allocOk {
      audio.samples := null;
      audio.sampleCount := 0;
      return;
    }
    TotalSamples(data[..size], fmt, spb, totalBits, totalSamples);
    var buf := new int16[totalSamples];
    audio.samples := buf;
    audio.sampleCount := totalSamples;
    EncodeChars(buf, data, size, fmt, spb);
  }

  /** The character loop of `encode_kcs`: each byte of data[..size] in turn, framed into buf. */
  method EncodeChars(buf: array<int16>, data: array<byte>, size: nat, fmt: SerialFormat, spb: nat)
    requires size <= data.Length && buf.Length == |EncodeSpec(data[..size], fmt, spb)|
    modifies buf
    ensures buf[..] == EncodeSpec(data[..size], fmt, spb)
  {
    assert data[0..size] == data[..size];
    var sampleIndex: nat := 0;
    var i := 0;
    while i < size
      invariant 0 <= i <= size
      invariant sampleIndex + |EncodeSpec(data[i..size], fmt, spb)| == buf.Length
      invariant buf[..sampleIndex] == EncodeSpec(data[..i], fmt, spb)
    {
      assert data[i..size][0] == data[i] && data[i..size][1..] == data[i + 1..size];
      sampleIndex := EncodeChar(buf, sampleIndex, data[i], fmt, spb);
      assert data[..i + 1] == data[..i] + [data[i]];
      EncodeAppend(data[..i], data[i], fmt, spb);
      i := i + 1;
    }
    assert data[..i] == data[..size];
    assert buf[..] == buf[..sampleIndex];
  }

  /** The sample count `encode_kcs` allocates is the length of the stream it writes. */
  lemma TotalSamples(data: seq<byte>, fmt: SerialFormat, spb: nat, totalBits: nat, totalSamples: nat)
    requires totalBits == |data| * (1 + fmt.dataBits + ParityBitCount(fmt) + fmt.stopBits)
    requires totalSamples == totalBits * spb
    ensures totalSamples == |EncodeSpec(data, fmt, spb)| == |data| * (BitsPerChar(fmt) * spb)
  {
    MulAssoc(|data|, BitsPerChar(fmt), spb);
  }

  /**
   * The samples of frame sit in samplesPtr from frameStart on; a null array only
   * comes with empty windows.
   */
  ghost predicate FrameAt(samplesPtr: array?<int16>, frameStart: nat, frame: seq<int16>, spb: nat)
    reads samplesPtr
  {
    (samplesPtr == null ==> spb == 0)
    && (samplesPtr != null ==>
          frameStart + |frame| <= samplesPtr.Length && samplesPtr[frameStart..frameStart + |frame|] == frame)
  }

  /** The window at offset x of a frame stored at frameStart is read from the array at frameStart + x. */
  lemma WindowOf(samplesPtr: array?<int16>, frameStart: nat, frame: seq<int16>, x: nat, spb: nat)
    requires x + spb <= |frame| && FrameAt(samplesPtr, frameStart, frame, spb)
    ensures samplesPtr != null ==>
              frameStart + x + spb <= samplesPtr.Length
              && frame[x..x + spb] == samplesPtr[frameStart + x..frameStart + x + spb]
    ensures samplesPtr == null ==> frame[x..x + spb] == []
  {
    if samplesPtr != null {
      SubSlice(samplesPtr[..], frameStart, frameStart + |frame|, x, x + spb);
    }
  }

  /** The `detect_bit` call for window w of a frame of n windows: it classifies that window. */
  method ReadWindow(samplesPtr: array?<int16>, sampleIndex: nat, spb: nat,
                    ghost frameStart: nat, ghost frame: seq<int16>, ghost w: nat, ghost n: nat)
    returns (bit: nat)
    requires w < n && |frame| == spb * n
    requires sampleIndex == frameStart + w * spb
    requires FrameAt(samplesPtr, frameStart, frame, spb)
    ensures (w + 1) * spb <= |frame| && sampleIndex + spb == frameStart + (w + 1) * spb
    ensures bit == Classify(frame[w * spb .. (w + 1) * spb])
  {
    WindowBound(w, n, spb);
    WindowOf(samplesPtr, frameStart, frame, w * spb, spb);
    bit := DetectBit(samplesPtr, sampleIndex, spb);
  }

  /** Reading data window b + 1 adds bit b to the byte, unless b is 8 or more. */
  lemma DataByteStep(frame: seq<int16>, spb: nat, b: nat, bit: nat)
    requires (b + 2) * spb <= |frame|
    requires bit == Classify(frame[(b + 1) * spb .. (b + 2) * spb])
    ensures (b + 1) * spb <= |frame|
    ensures CharByte(frame, spb, b + 1) == CharByte(frame, spb, b) + (if b < 8 && bit == 1 then Pow2(b) else 0)
  {
    MulMonotone(b + 1, b + 2, spb);
    MulMonotone(KeptBits(b) + 1, b + 2, spb);
    MulMonotone(KeptBits(b + 1) + 1, b + 2, spb);
  }

  /**
   * The data-bit loop of `decode_kcs`: windows 1..dataBits of the frame, bit b taken
   * from window b + 1, least significant first; bits from 8 on fall off the byte.
   */
  method ReadDataBits(samplesPtr: array?<int16>, frameStart: nat, dataBits: nat, spb: nat,
                      ghost frame: seq<int16>, ghost n: nat)
    returns (value: nat, sampleIndex: nat)
    requires dataBits < n && |frame| == spb * n
    requires FrameAt(samplesPtr, frameStart, frame, spb)
    ensures (dataBits + 1) * spb <= |frame| && sampleIndex == frameStart + (dataBits + 1) * spb
    ensures value == CharByte(frame, spb, dataBits)
  {
    WindowBound(0, n, spb);
    sampleIndex := frameStart + spb;
    value := 0;
    var b := 0;
    while b < dataBits
      invariant 0 <= b <= dataBits
      invariant (b + 1) * spb <= |frame| && sampleIndex == frameStart + (b + 1) * spb
      invariant value == CharByte(frame, spb, b)
    {
      var bit := ReadWindow(samplesPtr, sampleIndex, spb, frameStart, frame, b + 1, n);
      // `byte |= (bit & 1) << b` on a `uint8_t`: bit b is still clear, so the or is an
      // addition, and from b = 8 on the shifted bit is cut off
      DataByteStep(frame, spb, b, bit);
      if b < 8 {
        value := value + (if bit == 1 then Pow2(b) else 0);
      }
      sampleIndex := sampleIndex + spb;
      b := b + 1;
    }
  }

  /**
   * The body of `decode_kcs` after a start bit was found at frameStart: skips the
   * start window, assembles the data bits, classifies the parity window (and
   * computes the expected parity, which is never compared) and the stop windows,
   * and returns the byte and the index just past the character. frame stands for
   * the samples of the character.
   */
  method ReadChar(samplesPtr: array?<int16>, frameStart: nat, fmt: SerialFormat, spb: nat, ghost frame: seq<int16>)
    returns (value: byte, next: nat)
    requires |frame| == spb * BitsPerChar(fmt)
    requires FrameAt(samplesPtr, frameStart, frame, spb)
    ensures next == frameStart + |frame|
    ensures (fmt.dataBits + 1) * spb <= |frame| && value == CharByte(frame, spb, fmt.dataBits)
  {
    var parityBitCount := if fmt.parity == 'N' then 0 else 1;
    ghost var n := BitsPerChar(fmt);
    assert n == 1 + fmt.dataBits + parityBitCount + fmt.stopBits;
    var acc, sampleIndex := ReadDataBits(samplesPtr, frameStart, fmt.dataBits, spb, frame, n);
    value := acc;
    ghost var w: nat := 1 + fmt.dataBits;
    if parityBitCount == 1 {
      var parityVal := ReadWindow(samplesPtr, sampleIndex, spb, frameStart, frame, w, n);
      sampleIndex := sampleIndex + spb;
      w := w + 1;
      var expected := CalcParity(value, fmt.parity);
    }
    next := ReadStopBits(samplesPtr, sampleIndex, fmt.stopBits, spb, frameStart, frame, w, n);
    MulComm(n, spb);
  }

  /** The stop-bit loop of `decode_kcs`: the last stopBits windows are classified and the results dropped. */
  method ReadStopBits(samplesPtr: array?<int16>, sampleIndex: nat, stopBits: nat, spb: nat,
                      ghost frameStart: nat, ghost frame: seq<int16>, ghost w: nat, ghost n: nat)
    returns (next: nat)
    requires w + stopBits == n && |frame| == spb * n
    requires sampleIndex == frameStart + w * spb
    requires FrameAt(samplesPtr, frameStart, frame, spb)
    ensures next == frameStart + n * spb
  {
    next := sampleIndex;
    ghost var j := w;
    var st := 0;
    while st < stopBits
      invariant 0 <= st <= stopBits && j == w + st
      invariant next == frameStart + j * spb
    {
      var stopBit := ReadWindow(samplesPtr, next, spb, frameStart, frame, j, n);
      next := next + spb;
      j := j + 1;
      st := st + 1;
    }
  }

  /**
   * `decode_kcs`. Null arguments or a non-positive baud rate return None (the size
   * is not written) and leave outData untouched; otherwise the result is the size
   * of Decode(samples), which sits at the front of outData, the rest of it untouched.
   */
  method DecodeKcs(audio: AudioBuffer?, outData: array?<byte>, fmt: SerialFormat, baudRate: int, spb: nat)
    returns (outSize: Option<nat>)
    requires audio != null ==> audio.Valid()
    requires outData != null ==> outData.Length >= BUFFER_SIZE
    modifies outData
    ensures audio == null || outData == null || baudRate <= 0 ==> outSize == None
    ensures outData != null && (audio == null || baudRate <= 0) ==> unchanged(outData)
    ensures audio != null && outData != null && baudRate > 0 ==>
              var r := Decode(audio.Samples(), fmt, spb);
              outSize == Some(|r|) && outData[..|r|] == r && outData[|r|..] == old(outData[|r|..])
  {
    if audio == null || outData == null || baudRate <= 0 {
      return None;
    }
    var samples := audio.sampleCount;
    var samplesPtr := audio.samples;
    ghost var s := audio.Samples();
    var dataIndex := DecodeSamples(samplesPtr, samples, s, outData, fmt, spb);
    outSize := Some(dataIndex);
  }

  /**
   * The search loop of `decode_kcs` over `samples` samples of samplesPtr, whose values
   * are s: the bytes it stores are Decode(s), at the front of outData.
   */
  method DecodeSamples(samplesPtr: array?<int16>, samples: nat, ghost s: seq<int16>, outData: array<byte>,
                       fmt: SerialFormat, spb: nat)
    returns (dataIndex: nat)
    requires samplesPtr == null ==> samples == 0
    requires samplesPtr != null ==> samples <= samplesPtr.Length && s == samplesPtr[..samples]
    requires |s| == samples && outData.Length >= BUFFER_SIZE
    modifies outData
    ensures var r := Decode(s, fmt, spb);
            dataIndex == |r| && outData[..dataIndex] == r && outData[dataIndex..] == old(outData[dataIndex..])
  {
    var sampleIndex: nat := 0;
    dataIndex := 0;
    var parityBitCount := if fmt.parity == 'N' then 0 else 1;
    var totalBitsPerByte := 1 + fmt.dataBits + parityBitCount + fmt.stopBits;
    assert totalBitsPerByte == BitsPerChar(fmt);
    MulNonNegative(spb, totalBitsPerByte);
    var charSamples: nat := spb * totalBitsPerByte;
    ghost var original := outData[..];
    ghost var acc: seq<byte> := [];
    ghost var result := Decode(s, fmt, spb);
    assert s[0..] == s;
    while sampleIndex + charSamples <= samples
      invariant 0 <= dataIndex <= BUFFER_SIZE && |acc| == dataIndex
      invariant sampleIndex <= samples
      invariant Stored(outData[..], acc, original)
      invariant DecodeRest(s[sampleIndex..], fmt, spb, acc) == result
      decreases BUFFER_SIZE - dataIndex, samples - sampleIndex
    {
      var found, value, next := ScanStep(samplesPtr, sampleIndex, fmt, spb, s, samples);
      if !found {
        DecodeSkip(s, sampleIndex, fmt, spb, acc);
        sampleIndex := next;
      } else {
        DecodeTake(s, sampleIndex, next, value, fmt, spb, acc);
        sampleIndex := next;
        if dataIndex >= BUFFER_SIZE {
          break;
        }
        StoreByte(outData, dataIndex, value, acc, original);
        acc := acc + [value];
        dataIndex := dataIndex + 1;
      }
    }
    if sampleIndex + charSamples > samples {
      DecodeEnd(s, sampleIndex, fmt, spb, acc);
    }
    assert outData[..] == acc + original[dataIndex..];
  }

  /** out holds acc at its front and original after it. */
  ghost predicate Stored(out: seq<byte>, acc: seq<byte>, original: seq<byte>)
  {
    |acc| <= |out| == |original| && out == acc + original[|acc|..]
  }

  /** `out_data[data_index++] = value`: the written prefix grows by value and the rest is as it was. */
  method StoreByte(outData: array<byte>, i: nat, v: byte, ghost acc: seq<byte>, ghost original: seq<byte>)
    requires |acc| == i < outData.Length
    requires Stored(outData[..], acc, original)
    modifies outData
    ensures Stored(outData[..], acc + [v], original)
  {
    outData[i] := v;
    assert outData[..] == acc + [v] + original[i + 1..];
  }

  /**
   * One pass of the `decode_kcs` loop up to the output check: the window at
   * sampleIndex is classified; if it is not a start bit the search moves on by one
   * sample, otherwise the whole character is read. s stands for the buffer's samples.
   */
  method ScanStep(samplesPtr: array?<int16>, sampleIndex: nat, fmt: SerialFormat, spb: nat,
                  ghost s: seq<int16>, samples: nat)
    returns (found: bool, value: byte, next: nat)
    requires sampleIndex + spb * BitsPerChar(fmt) <= samples == |s|
    requires samplesPtr == null ==> samples == 0
    requires samplesPtr != null ==> samples <= samplesPtr.Length && s == samplesPtr[..samples]
    ensures spb <= spb * BitsPerChar(fmt) && (fmt.dataBits + 1) * spb <= spb * BitsPerChar(fmt)
    ensures !found ==> Classify(s[sampleIndex..sampleIndex + spb]) != 0 && next == sampleIndex + 1
    ensures found ==> Classify(s[sampleIndex..sampleIndex + spb]) == 0 && next == sampleIndex + spb * BitsPerChar(fmt)
    ensures found ==> value == CharByte(s[sampleIndex..next], spb, fmt.dataBits)
  {
    ghost var L := spb * BitsPerChar(fmt);
    CharBounds(fmt, spb);
    ghost var frame := s[sampleIndex..sampleIndex + L];
    FrameOf(samplesPtr, s, samples, sampleIndex, L, spb);
    WindowOf(samplesPtr, sampleIndex, frame, 0, spb);
    assert frame[0..0 + spb] == s[sampleIndex..sampleIndex + spb];
    var startBit := DetectBit(samplesPtr, sampleIndex, spb);
    if startBit != 0 {
      found, value, next := false, 0, sampleIndex + 1;
      return;
    }
    found := true;
    value, next := ReadChar(samplesPtr, sampleIndex, fmt, spb, frame);
  }

  /** The samples the buffer holds from i on, L of them, sit in the array from i on. */
  lemma FrameOf(samplesPtr: array?<int16>, s: seq<int16>, samples: nat, i: nat, L: nat, spb: nat)
    requires i + L <= samples == |s| && spb <= L
    requires samplesPtr == null ==> samples == 0
    requires samplesPtr != null ==> samples <= samplesPtr.Length && s == samplesPtr[..samples]
    ensures FrameAt(samplesPtr, i, s[i..i + L], spb)
  {
  }
}
