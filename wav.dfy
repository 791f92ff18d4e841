/**
 * WavUnit: the 44-byte RIFF/WAVE header that `save_audio` writes in front of the
 * samples, and the little-endian field reads and checks `load_audio` applies to it.
 * Only the header bytes are modelled; opening, reading and writing files is not.
 */
module Wav {
  import opened KcsTypes

  const WAV_HEADER_SIZE: nat := 44
  /** `uint32_t` arithmetic wraps modulo 2^32. */
  const UINT32_MOD: nat := 0x1_0000_0000

  /** The ASCII bytes of "RIFF", "WAVE", "fmt " and "data". */
  const RIFF_TAG: seq<byte> := [0x52, 0x49, 0x46, 0x46]
  const WAVE_TAG: seq<byte> := [0x57, 0x41, 0x56, 0x45]
  const FMT_TAG: seq<byte> := [0x66, 0x6d, 0x74, 0x20]
  const DATA_TAG: seq<byte> := [0x64, 0x61, 0x74, 0x61]

  function Pow256(n: nat): (p: nat)
    ensures p >= 1
  {
    if n == 0 then 1 else 256 * Pow256(n - 1)
  }

  /** The n low bytes of x, least significant first: `(x >> 8 * k) & 0xFF` for k below n. */
  function LeBytes(x: nat, n: nat): (b: seq<byte>)
    ensures |b| == n
  {
    if n == 0 then [] else [x % 256] + LeBytes(x / 256, n - 1)
  }

  /** `b[0] | (b[1] << 8) | (b[2] << 16) | ...`: the little-endian value of the bytes b. */
  function ReadLe(b: seq<byte>): (x: nat)
    ensures x < Pow256(|b|)
  {
    if b == [] then 0 else b[0] + 256 * ReadLe(b[1..])
  }

  /** The width-byte little-endian field of h at offset off. */
  function ReadField(h: seq<byte>, off: nat, width: nat): (x: nat)
    requires off + width <= |h|
    ensures x < Pow256(width)
  {
    ReadLe(h[off..off + width])
  }

  /** Writing n bytes of x and reading them back gives x modulo 256^n. */
  lemma {:induction false} LeRoundTrip(x: nat, n: nat)
    ensures ReadLe(LeBytes(x, n)) == x % Pow256(n)
  {
    if n > 0 {
      var b := LeBytes(x, n);
      assert b[1..] == LeBytes(x / 256, n - 1);
      LeRoundTrip(x / 256, n - 1);
      ModSplit(x, Pow256(n - 1));
    }
  }

  /** Reading n bytes and writing the value back as n bytes gives the same bytes. */
  lemma {:induction false} LeOfRead(b: seq<byte>)
    ensures LeBytes(ReadLe(b), |b|) == b
  {
    if b != [] {
      var r := ReadLe(b[1..]);
      LeOfRead(b[1..]);
      assert (b[0] + 256 * r) % 256 == b[0];
      assert (b[0] + 256 * r) / 256 == r;
    }
  }

  /** x modulo 256 * p splits into its low byte and the rest modulo p. */
  lemma ModSplit(x: nat, p: nat)
    requires p >= 1
    ensures x % (256 * p) == x % 256 + 256 * ((x / 256) % p)
  {
    var q, r := x / 256, x % 256;
    var a, c := q / p, q % p;
    assert q == p * a + c;
    assert x == (256 * p) * a + (256 * c + r) by {
      assert x == 256 * q + r;
      assert 256 * q == 256 * (p * a) + 256 * c;
      MulAssoc(256, p, a);
    }
    assert 256 * c + r < 256 * p by {
      MulMonotone(c + 1, p, 256);
    }
    ModUnique(x, 256 * p, a, 256 * c + r);
  }

  /** The remainder is the unique r below m with x == m * a + r. */
  lemma ModUnique(x: nat, m: nat, a: nat, r: nat)
    requires m >= 1 && r < m && x == m * a + r
    ensures x % m == r
  {
    var q := x / m;
    assert q * m + x % m == x && a * m + r == x;
    MulLess(q, a + 1, m);
    MulLess(a, q + 1, m);
  }

  /** Multiplication by the same factor keeps a strict order only when the other factors are ordered. */
  lemma MulLess(a: nat, b: nat, c: nat)
    requires a * c < b * c
    ensures a < b
  {
    if a >= b {
      MulMonotone(b, a, c);
    }
  }

  /** `subchunk2_size = sample_count * sizeof(int16_t)`, stored in a `uint32_t`. */
  function DataSize(sampleCount: nat): (d: nat)
    ensures d < UINT32_MOD
  {
    (sampleCount * 2) % UINT32_MOD
  }

  /** `chunk_size = 4 + (8 + 16) + (8 + subchunk2_size)`, computed in `uint32_t`. */
  function ChunkSize(dataSize: nat): (c: nat)
    ensures c < UINT32_MOD
  {
    (4 + (8 + 16) + (8 + dataSize)) % UINT32_MOD
  }

  /** The header of `save_audio` for sampleCount samples of 16-bit mono PCM at SAMPLE_RATE. */
  function WavHeader(sampleCount: nat): (h: seq<byte>)
    ensures |h| == WAV_HEADER_SIZE
  {
    var dataSize := DataSize(sampleCount);
    RIFF_TAG + LeBytes(ChunkSize(dataSize), 4) + WAVE_TAG
    + FMT_TAG + [16, 0, 0, 0] + [1, 0] + [1, 0]
    + LeBytes(SAMPLE_RATE, 4) + LeBytes(SAMPLE_RATE * 2, 4) + [2, 0] + [16, 0]
    + DATA_TAG + LeBytes(dataSize, 4)
  }

  /** The header fields `load_audio` reads. */
  datatype WavFormat = WavFormat(audioFormat: nat, numChannels: nat, sampleRate: nat,
                                 bitsPerSample: nat, dataSize: nat)

  /** Why `load_audio` gives up on a header. */
  datatype WavError = ShortHeader | NotWav | UnsupportedFormat

  datatype HeaderResult = Parsed(format: WavFormat) | Failed(error: WavError)

  /** The RIFF and WAVE tags `load_audio` compares; "fmt " and "data" are not compared. */
  predicate TagsOk(h: seq<byte>): (r: bool)
    requires |h| >= WAV_HEADER_SIZE
    ensures r <==> h[..12] == RIFF_TAG + h[4..8] + WAVE_TAG
  {
    h[0..4] == RIFF_TAG && h[8..12] == WAVE_TAG
  }

  /** The fields at offsets 20, 22, 24, 34 and 40, as `load_audio` assembles them. */
  function Fields(h: seq<byte>): (f: WavFormat)
    requires |h| >= WAV_HEADER_SIZE
    ensures f.audioFormat < 0x1_0000 && f.numChannels < 0x1_0000 && f.bitsPerSample < 0x1_0000
    ensures f.sampleRate < UINT32_MOD && f.dataSize < UINT32_MOD
  {
    WavFormat(ReadField(h, 20, 2), ReadField(h, 22, 2), ReadField(h, 24, 4),
              ReadField(h, 34, 2), ReadField(h, 40, 4))
  }

  /** Only 16-bit mono PCM (format 1) at SAMPLE_RATE is accepted. */
  predicate Supported(f: WavFormat): (r: bool)
    ensures r <==> f == WavFormat(1, 1, SAMPLE_RATE, 16, f.dataSize)
  {
    f.audioFormat == 1 && f.numChannels == 1 && f.bitsPerSample == 16 && f.sampleRate == SAMPLE_RATE
  }

  /**
   * The header checks of `load_audio` on the bytes of a file: fewer than 44 bytes
   * fail the read, then the tags are compared, then the format fields.
   */
  function ParseHeader(file: seq<byte>): (r: HeaderResult)
    ensures r == Failed(ShortHeader) <==> |file| < WAV_HEADER_SIZE
    ensures r == Failed(NotWav) <==> |file| >= WAV_HEADER_SIZE && !TagsOk(file)
    ensures r.Parsed? ==> |file| >= WAV_HEADER_SIZE && TagsOk(file) && Supported(r.format)
    ensures r.Parsed? ==> r.format.dataSize < UINT32_MOD
    ensures r.Parsed? ==> r.format == Fields(file)
    ensures |file| >= WAV_HEADER_SIZE && TagsOk(file) ==> (r.Parsed? <==> Supported(Fields(file)))
  {
    if |file| < WAV_HEADER_SIZE then Failed(ShortHeader)
    else if !TagsOk(file) then Failed(NotWav)
    else if !Supported(Fields(file)) then Failed(UnsupportedFormat)
    else Parsed(Fields(file))
  }

  /** `sample_count = data_size / sizeof(int16_t)`: an odd last byte is dropped. */
  function SampleCount(f: WavFormat): (n: nat)
    ensures 2 * n <= f.dataSize < 2 * n + 2
  {
    f.dataSize / 2
  }

  /** The bytes `load_audio` looks at: the tags and the five fields it reads. */
  predicate Inspected(k: nat)
  {
    k < 4 || 8 <= k < 12 || 20 <= k < 28 || 34 <= k < 36 || 40 <= k < 44
  }

  /** The outcome depends only on the inspected bytes: the chunk size, "fmt " and "data" are never checked. */
  lemma ParseDependsOnInspected(h1: seq<byte>, h2: seq<byte>)
    requires |h1| >= WAV_HEADER_SIZE && |h2| >= WAV_HEADER_SIZE
    requires forall k :: 0 <= k < WAV_HEADER_SIZE && Inspected(k) ==> h1[k] == h2[k]
    ensures ParseHeader(h1) == ParseHeader(h2)
  {
    assert h1[0..4] == h2[0..4] && h1[8..12] == h2[8..12];
    assert h1[20..22] == h2[20..22] && h1[22..24] == h2[22..24] && h1[24..28] == h2[24..28];
    assert h1[34..36] == h2[34..36] && h1[40..44] == h2[40..44];
  }

  /** The pieces of the header that `save_audio` builds, at their offsets. */
  ghost predicate HeaderShape(h: seq<byte>, n: nat)
  {
    |h| == WAV_HEADER_SIZE
    && h[0..4] == RIFF_TAG && h[4..8] == LeBytes(ChunkSize(DataSize(n)), 4)
    && h[8..12] == WAVE_TAG && h[12..16] == FMT_TAG && h[16..20] == [16, 0, 0, 0]
    && h[20..22] == [1, 0] && h[22..24] == [1, 0]
    && h[24..28] == LeBytes(SAMPLE_RATE, 4) && h[28..32] == LeBytes(SAMPLE_RATE * 2, 4)
    && h[32..34] == [2, 0] && h[34..36] == [16, 0]
    && h[36..40] == DATA_TAG && h[40..44] == LeBytes(DataSize(n), 4)
  }

  lemma HeaderLayout(n: nat)
    ensures HeaderShape(WavHeader(n), n)
  {
  }

  /**
   * What `save_audio` writes passes every check of `load_audio`: format 1, one
   * channel, 44100 Hz and 16 bits, with data size 2 * n modulo 2^32 and a chunk size
   * 36 bytes larger (modulo 2^32). Below 2^31 samples the sample count comes back exactly.
   */
  lemma HeaderRoundTrip(n: nat)
    ensures ParseHeader(WavHeader(n)) == Parsed(WavFormat(1, 1, SAMPLE_RATE, 16, (2 * n) % UINT32_MOD))
    ensures ReadField(WavHeader(n), 4, 4) == (36 + (2 * n) % UINT32_MOD) % UINT32_MOD
    ensures ReadField(WavHeader(n), 28, 4) == 2 * SAMPLE_RATE
    ensures n < 0x8000_0000 ==> SampleCount(Fields(WavHeader(n))) == n
  {
    HeaderLayout(n);
    ShapeParses(WavHeader(n), n);
  }

  lemma ShapeParses(h: seq<byte>, n: nat)
    requires HeaderShape(h, n)
    ensures ParseHeader(h) == Parsed(WavFormat(1, 1, SAMPLE_RATE, 16, (2 * n) % UINT32_MOD))
    ensures ReadField(h, 4, 4) == (36 + (2 * n) % UINT32_MOD) % UINT32_MOD
    ensures ReadField(h, 28, 4) == 2 * SAMPLE_RATE
    ensures n < 0x8000_0000 ==> SampleCount(Fields(h)) == n
  {
    var f := WavFormat(1, 1, SAMPLE_RATE, 16, DataSize(n));
    FieldsOfShape(h, n);
    ParsedOf(h, f);
    ChunkField(h, n);
    WideField(h, 28, SAMPLE_RATE * 2);
    if n < 0x8000_0000 {
      ModUnique(n * 2, UINT32_MOD, 0, n * 2);
      assert SampleCount(f) == n;
    }
  }

  lemma FieldsOfShape(h: seq<byte>, n: nat)
    requires HeaderShape(h, n)
    ensures Fields(h) == WavFormat(1, 1, SAMPLE_RATE, 16, DataSize(n))
  {
    SmallFields(h);
    WideField(h, 24, SAMPLE_RATE);
    WideField(h, 40, DataSize(n));
  }

  /** The format, channel and bit-depth fields of the header that `save_audio` writes. */
  lemma SmallFields(h: seq<byte>)
    requires |h| >= WAV_HEADER_SIZE && h[20..22] == [1, 0] && h[22..24] == [1, 0] && h[34..36] == [16, 0]
    ensures ReadField(h, 20, 2) == 1 && ReadField(h, 22, 2) == 1 && ReadField(h, 34, 2) == 16
  {
    ReadLe2(h[20..22]);
    ReadLe2(h[22..24]);
    ReadLe2(h[34..36]);
  }

  /** `b[0] | (b[1] << 8)`. */
  lemma ReadLe2(b: seq<byte>)
    requires |b| == 2
    ensures ReadLe(b) == b[0] as int + 256 * (b[1] as int)
  {
    assert b[1..][1..] == [];
  }

  /** A 32-bit field holding the little-endian bytes of x below 2^32 reads back as x. */
  lemma WideField(h: seq<byte>, off: nat, x: nat)
    requires off + 4 <= |h| && x < UINT32_MOD && h[off..off + 4] == LeBytes(x, 4)
    ensures ReadField(h, off, 4) == x
  {
    assert Pow256(4) == UINT32_MOD;
    FieldOfBytes(h, off, 4, x);
  }

  lemma ParsedOf(h: seq<byte>, f: WavFormat)
    requires |h| >= WAV_HEADER_SIZE && TagsOk(h) && Fields(h) == f && Supported(f)
    ensures ParseHeader(h) == Parsed(f)
  {
  }

  /** The chunk size field holds 36 plus the data size, modulo 2^32. */
  lemma ChunkField(h: seq<byte>, n: nat)
    requires |h| >= 8 && h[4..8] == LeBytes(ChunkSize(DataSize(n)), 4)
    ensures ReadField(h, 4, 4) == (36 + (2 * n) % UINT32_MOD) % UINT32_MOD
  {
    var d := DataSize(n);
    var c := ChunkSize(d);
    assert d == (2 * n) % UINT32_MOD;
    assert c == (36 + d) % UINT32_MOD;
    assert Pow256(4) == UINT32_MOD;
    FieldOfBytes(h, 4, 4, c);
    ModUnique(c, UINT32_MOD, 0, c);
  }

  /** A field holding the little-endian bytes of x reads back as x modulo 256^width. */
  lemma FieldOfBytes(h: seq<byte>, off: nat, width: nat, x: nat)
    requires off + width <= |h| && h[off..off + width] == LeBytes(x, width)
    ensures ReadField(h, off, width) == x % Pow256(width)
  {
    LeRoundTrip(x, width);
  }
}
