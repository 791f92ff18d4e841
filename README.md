# Kansas City Standard modem, modelled in Dafny

This project models the core of `kcs_audio.c`, a Kansas City Standard (KCS) FSK modem. The modem turns bytes into
16-bit PCM audio at 44100 samples per second and back. Each byte becomes one serial character:
- a start bit 0;
- the data bits, least significant first;
- an optional parity bit;
- one or more stop bits of 1.

Bit 0 is sent as a 1200 Hz square wave and bit 1 as a 2400 Hz square wave. The decoder searches for a start bit one
sample at a time. It then reads one window per bit and decides each bit by counting zero crossings.

The modules follow the parts of the program:

- `KcsTypes` (`kcs_types.dfy`): the constants of `kcs_audio.h`, the byte and sample types, and bit and arithmetic
  helpers. The datatype `SerialFormat` is the struct of kcs_audio.h:20-24: data bits, stop bits and a parity letter.
- `Parity` (`parity.dfy`): `calc_parity` as a loop, with the parity function it computes.
- `Tone` (`tone.dfy`): `generate_bit` and `detect_bit` as methods on arrays. Beside them are the window a bit produces
  (`Window`) and the classification rule (`Classify`), plus lemmas about them:
  - crossings of a synthesized window, counted exactly;
  - the 1200 Hz window always reads as 0;
  - the 2400 Hz window reads as 1 exactly for the window lengths `MarkReliable` admits;
  - the integer rule equals the nearest-tone rule on the real frequency estimate.
- `Framing` (`framing.dfy`): the stream specification.
  - `EncodeSpec` is the sample stream of a byte sequence.
  - `DecodeRest` and `Decode` are the decoder's state machine over the samples not yet consumed.
  - Lemmas cover the layout of the stream, the decoder's cap, silence, and the encode/decode round trip.
- `Modem` (`modem.dfy`): the `AudioBuffer` struct as a class, and `encode_kcs` and `decode_kcs` as imperative
  methods. Each loop of the C code is a loop here, and each method is proved against the `Framing` specification.
- `Wav` (`wav.dfy`): the 44-byte header `save_audio` writes, and the checks and little-endian field reads
  `load_audio` applies to it. Both sides are pure functions on bytes, with the round trip between them.

Samples per bit (`spb`) is a parameter of the model. The C code derives it from the baud rate with floating point:
`(size_t)(44100 * (1.0 / baud))`, which is 36 at 1200 baud and 147 at 300 baud. The floating-point tests of the C
code are stated exactly in integers:
- the `fmod` test in `generate_bit` is `(i * f) % 44100 < 22050`;
- the nearest-tone decision in `detect_bit` is `crossings * 49 > 4 * spb`.

`spb == 0` is modelled too. Every window is then empty and classifies as 0, so the decoder emits zero bytes until its
65536-byte output is full (`Framing.DecodeZeroWindow`).

The round trip needs the 2400 Hz window to be classified as 1. `Tone.MarkClassifiesOne` proves this happens
exactly when `MarkReliable(spb)` holds:
- it holds at 36 and 147 samples per bit and for every length of 41 or more;
- it fails at 9 and 18 samples per bit (`Tone.MarkReliableLengths`).

Short windows are therefore not enough for this classifier, and the round-trip lemmas assume `MarkReliable(spb)`.
The converse holds too. For `spb >= 1` that `MarkReliable` rejects, every character decodes as byte 0
(`Framing.UnreliableDecodesZeros`). So with at least one data bit and `spb >= 1`, every stream round-trips exactly
when `MarkReliable(spb)` holds (`Framing.RoundTripIffReliable`). With no data bits, every byte decodes as 0 for
every `spb >= 1`, which is also what masking to zero bits gives.

The decoder assembles the byte in a `uint8_t`, so data bits from the ninth on are dropped (`KcsTypes.KeptBits`,
`Framing.CharByte`). The model therefore admits any `data_bits`, and the round trip recovers each byte cut to its low
`min(data_bits, 8)` bits.

## Model

| member | source | states |
|---|---|---|
| KcsTypes.ParityBitCount | kcs_audio.c:87 | a character has a parity window exactly when the parity letter is not 'N' |
| KcsTypes.BitsPerChar | kcs_audio.c:88 | a character has at least 1 + data_bits windows (start, data, parity, stop) |
| KcsTypes.KeptBits | kcs_audio.c:97-100 | at most 8 data bits reach the decoded byte: all of them when data_bits <= 8, exactly 8 from data_bits >= 8 on |
| KcsTypes.ByteBit | kcs_audio.c:221 | `(byte >> bit) & 1` is 0 or 1 |
| Parity.PopCount | kcs_audio.c:42-45 | the number of set bits among the low n bits is at most n |
| Parity.ParityBit | kcs_audio.c:46-51 | the parity bit is 0 or 1; with 'E' count plus it is even, with 'O' odd; every other letter gives 0 |
| Parity.ParityOf | kcs_audio.c:41-52 | the parity bit is 0 or 1; with 'E' the set bits plus it are even, with 'O' odd; every other letter gives 0 |
| Parity.CalcParity | kcs_audio.c:41-52 | the counting loop over bits 0..7 returns ParityOf(byte, mode), with the even/odd/zero guarantees |
| Parity.ParityBitStep | kcs_audio.c:46-50 | one more set bit flips the 'E' or 'O' parity bit |
| Parity.ParityDetectsSingleFlip | kcs_audio.c:41-52 | inverting any one of the 8 bits of a byte inverts its 'E' or 'O' parity bit |
| Parity.ParityOfThree | kcs_audio.c:46-49 | byte 0x03 gets parity bit 0 with 'E' and 1 with 'O' |
| Tone.ToneFreq | kcs_audio.c:55 | the carrier is 1200 Hz or 2400 Hz, and it is 1200 Hz exactly when the bit is 0 |
| Tone.ToneSample | kcs_audio.c:56-59 | every sample is a full-scale square-wave value, 32767 or -32768 |
| Tone.Window | kcs_audio.c:57-60 | a bit's window has spb samples, each 32767 or -32768 |
| Tone.GenerateBit | kcs_audio.c:54-61 | writes Window(bit, spb) at index..index+spb, moves the index by spb, leaves every other sample as it was |
| Tone.IsCrossing | kcs_audio.c:66 | two samples make a crossing exactly when one is negative and the other is not |
| Tone.Crossings | kcs_audio.c:65-69 | a window of spb >= 1 samples has at most spb - 1 sign changes |
| Tone.Classify | kcs_audio.c:70-73 | the decision is 0 or 1, and 0 for an empty window |
| Tone.DetectBit | kcs_audio.c:63-74 | the crossing-counting loop returns Classify of samples[start..start+spb] |
| Tone.FreqEstimate | kcs_audio.c:70 | the frequency estimate is never negative, and it is 0 exactly when there are no crossings |
| Tone.ClassifyNearestTone | kcs_audio.c:70-73 | Classify is 1 exactly when the estimate zc*44100/(2*spb) is strictly nearer 2400 than 1200; a tie gives 0 |
| Tone.HighIffEvenHalfCycles | kcs_audio.c:58-59 | sample i is high exactly when an even number of half cycles has begun by i |
| Tone.CrossingIffNewHalfCycle | kcs_audio.c:58-59 | two consecutive samples differ in sign exactly when a new half cycle begins between them |
| Tone.WindowCrossings | kcs_audio.c:54-69 | a synthesized window has exactly floor(2*(spb-1)*f/44100) crossings |
| Tone.SpaceAlwaysClassifiesZero | kcs_audio.c:55-73 | a 1200 Hz window classifies as 0 for every window length |
| Tone.MarkClassifiesOne | kcs_audio.c:55-73 | a 2400 Hz window classifies as 1 exactly when MarkReliable(spb) |
| Tone.MarkReliableLengths | kcs_audio.c:55-73 | 36, 147 and every length from 41 on are reliable; 9 and 18 are not |
| Tone.ToneRoundTrip | kcs_audio.c:54-74 | with a reliable length, classifying the window of bit 0 or 1 gives the bit back |
| Framing.FrameBitsOf | kcs_audio.c:217-230 | a character is bit 0, the data bits (byte>>b)&1 for b below data_bits, the calc_parity bit unless 'N', then stop bits of 1 |
| Framing.WindowsSlice | kcs_audio.c:219-228 | window j of a run of bit windows holds the tone of bit j |
| Framing.FrameSamples | kcs_audio.c:218-229 | one character is BitsPerChar(fmt) * spb samples long |
| Framing.EncodeSpec | kcs_audio.c:205-207 | the stream of n bytes holds n * (1 + data_bits + p + stop_bits) * spb samples |
| Framing.EncodeConcat | kcs_audio.c:217-230 | the stream of a + b is the stream of a followed by the stream of b: no gaps between characters |
| Framing.EncodeFrameSlice | kcs_audio.c:217-230 | character k occupies samples k*L .. k*L+L of the stream, L being the character length |
| Framing.EncodeLayout | kcs_audio.c:217-230 | window j of character k is the tone of bit j of that character's frame |
| Framing.DataByte | kcs_audio.c:97-102 | the byte assembled from n data windows is below 2^n |
| Framing.CharByte | kcs_audio.c:97-102 | the decoded byte is below 2^min(data_bits, 8), and with at most 8 data bits it is the byte of all the data windows |
| Framing.DecodeRest | kcs_audio.c:90-114 | the decoder only appends to what it produced, and never past BUFFER_SIZE bytes |
| Framing.DecodeSkip | kcs_audio.c:91-95 | a window that is not a start bit moves the search on by one sample |
| Framing.DecodeTake | kcs_audio.c:96-113 | a start bit emits the character's data byte and resumes after the character, unless the output is full |
| Framing.DecodeEnd | kcs_audio.c:90 | fewer samples than one character stop the decoder |
| Framing.Decode | kcs_audio.c:84-115 | the decoded output is at most BUFFER_SIZE bytes, and a stream shorter than one character gives none |
| Framing.DecodeBytesFit | kcs_audio.c:97-102 | every decoded byte is below 2^min(data_bits, 8) |
| Framing.DecodeSilence | kcs_audio.c:90-95 | a stream in which no window classifies as 0 decodes to nothing |
| Framing.DecodeZeroWindow | kcs_audio.c:90-114 | with spb = 0 the decoder emits zero bytes up to the cap |
| Framing.DataByteOfBits | kcs_audio.c:97-102 | data windows that classify as the bits of b assemble the low bits of b, LSB first |
| Framing.FrameDataByte | kcs_audio.c:97-102 | at a window length MarkReliable admits, decoding a synthesized character gives the low bits of its byte |
| Framing.FrameBitWindow | kcs_audio.c:220-222 | at a window length MarkReliable admits, data window n of a synthesized character classifies as data bit n - 1 |
| Framing.FrameStart | kcs_audio.c:91-92 | the first window of a synthesized character classifies as a start bit |
| Framing.RoundTripRest | kcs_audio.c:90-113 | at a window length MarkReliable admits, from any decoder state the encoded rest of the data is recovered, masked and cut at capacity |
| Framing.RoundTrip | kcs_audio.c:90-113 | at a window length MarkReliable admits, Decode(EncodeSpec(data)) is the first min(|data|, BUFFER_SIZE) bytes, each masked to the data bits |
| Framing.UnreliableFrameWindow | kcs_audio.c:55-73 | for a length MarkReliable rejects, every start and data window of a synthesized character classifies as 0 |
| Framing.UnreliableCharByte | kcs_audio.c:97-102 | for a length MarkReliable rejects, a synthesized character decodes as byte 0 |
| Framing.UnreliableDecodesZeros | kcs_audio.c:90-113 | for spb >= 1 that MarkReliable rejects, Decode(EncodeSpec(data)) is one 0 per byte, for up to BUFFER_SIZE bytes |
| Framing.RoundTripIffReliable | kcs_audio.c:90-113 | with at least one data bit and spb >= 1, every stream of up to BUFFER_SIZE bytes round-trips exactly when MarkReliable(spb) |
| Framing.RoundTripEightBits | kcs_audio.c:217-230 | at a window length MarkReliable admits, with 8 or more data bits and any parity and stop bits, the round trip is exact for up to BUFFER_SIZE bytes |
| Framing.RoundTrip8N1At1200 | main.c:35-36 | in 8N1 at 1200 baud (36 samples per bit) decoding the encoding gives the data back, in 360 samples per byte |
| Framing.EncodeDecode0x41 | kcs_audio.c:200-231 | byte 0x41 in 8N1 at 1200 baud is 360 samples that decode to [0x41] |
| Modem.AudioBuffer.constructor | kcs_audio.h:27-30 | a new buffer has no samples and a count of 0 |
| Modem.EmitWindow | kcs_audio.c:219 | one generate_bit call moves window k from the windows still to write to those written |
| Modem.EmitDataBits | kcs_audio.c:220-222 | the data-bit loop writes the data windows of the character |
| Modem.EmitStopBits | kcs_audio.c:227-229 | the stop-bit loop writes the closing windows of 1 |
| Modem.EncodeChar | kcs_audio.c:218-229 | one character's samples are written from index on, nothing before or after it changes |
| Modem.EncodeChars | kcs_audio.c:217-230 | the character loop fills the buffer with EncodeSpec(data[..size]) |
| Modem.TotalSamples | kcs_audio.c:205-207 | the allocated sample count is the length of the stream written |
| Modem.EncodeKcs | kcs_audio.c:200-231 | guards leave audio untouched, a failed allocation leaves it empty, otherwise it holds exactly EncodeSpec(data[..size]) |
| Modem.ReadWindow | kcs_audio.c:99 | one detect_bit call classifies window w of the character |
| Modem.DataByteStep | kcs_audio.c:100 | the or of bit b adds 2^b for b below 8 and nothing from 8 on |
| Modem.ReadDataBits | kcs_audio.c:97-102 | the data-bit loop returns CharByte of the character's data windows |
| Modem.ReadChar | kcs_audio.c:96-111 | after a start bit, the character is consumed whole and its data byte returned |
| Modem.ReadStopBits | kcs_audio.c:108-111 | the stop windows are consumed, ending the character |
| Modem.ScanStep | kcs_audio.c:91-111 | one pass: no start bit moves one sample on, a start bit consumes a character and returns its byte |
| Modem.StoreByte | kcs_audio.c:113 | the output's written prefix grows by one byte and the rest is untouched |
| Modem.DecodeSamples | kcs_audio.c:84-114 | the search loop stores Decode(samples) at the front of the output and leaves the rest |
| Modem.DecodeKcs | kcs_audio.c:76-116 | null arguments or baud <= 0 give no size and no writes; otherwise the size is the length of Decode(samples) and those bytes lead the output |
| Wav.LeBytes | kcs_audio.c:182 | the little-endian encoding of a value in n bytes has n bytes |
| Wav.ReadLe | kcs_audio.c:138-142 | a little-endian read of n bytes is below 256^n |
| Wav.LeRoundTrip | kcs_audio.c:182-193 | reading back the n little-endian bytes of x gives x mod 256^n |
| Wav.LeOfRead | kcs_audio.c:138-142 | the little-endian bytes of a read value are the bytes read |
| Wav.DataSize | kcs_audio.c:178 | the data size is a uint32 |
| Wav.ChunkSize | kcs_audio.c:179 | the chunk size is a uint32 |
| Wav.WavHeader | kcs_audio.c:180-194 | the header is 44 bytes |
| Wav.HeaderLayout | kcs_audio.c:180-194 | each header field sits at its offset: the tags, sizes, format, channels, rate, byte rate, block align and bits |
| Wav.ReadField | kcs_audio.c:138-142 | a field of n bytes is below 256^n |
| Wav.TagsOk | kcs_audio.c:132 | the tags pass exactly when the first 12 bytes are "RIFF", any 4 bytes, then "WAVE" |
| Wav.Fields | kcs_audio.c:138-142 | the 16-bit fields are below 2^16 and the 32-bit fields below 2^32 |
| Wav.Supported | kcs_audio.c:144 | the accepted formats are exactly PCM format 1, 1 channel, 44100 Hz and 16 bits, with any data size |
| Wav.ParseHeader | kcs_audio.c:125-148 | short input fails exactly when it is under 44 bytes, bad tags fail exactly when it is long enough; a well-tagged header is accepted exactly when its fields are Supported, and then the format returned is the fields read at offsets 20, 22, 24, 34 and 40 |
| Wav.SampleCount | kcs_audio.c:161 | the sample count is data_size / 2, dropping an odd byte |
| Wav.ParseDependsOnInspected | kcs_audio.c:132-142 | two headers that agree on the tags and the five fields read parse the same |
| Wav.HeaderRoundTrip | kcs_audio.c:178-194 | the written header parses as format 1, mono, 44100 Hz, 16 bits, data size 2n mod 2^32, chunk size 36 more, and gives back n below 2^31 |

## Left out

- File I/O: opening, reading and writing files, and `exit` (kcs_audio.c:118-136, 150-164, 172-197). Only the header
  bytes are modelled, as values.
- The argument guard of `save_audio` (kcs_audio.c:167-170). It only decides whether the file is written at all.
- `bit_duration` and the floating-point computation of samples per bit (kcs_audio.c:37-39, 79-80, 203-204). The
  rounding of `44100 * (1.0 / baud)` is not modelled, so the samples per bit are a parameter.
- `fmod` and `fabs` are replaced by the exact integer tests they compute. Floating-point rounding inside them is not
  modelled.
- Memory: `malloc` failure is the boolean parameter `allocOk` of `Modem.EncodeKcs`. Reading `data_size` samples into
  a `malloc`ed buffer in `load_audio`, and `free_audio_buffer` (kcs_audio.c:233-239), are not modelled.
- `size_t` and `int` overflow in `encode_kcs`'s sample count and in `decode_kcs`'s loop guard is not modelled:
  integers are unbounded. The `uint32_t` wrap-around of the header sizes is modelled.
- Modem.DecodeKcs: a null `out_size` is merged with the other null arguments. The size is an `Option` result, so
  a write through `out_size` is not modelled on its own.
- Shifts that are undefined behaviour in C for very many data bits are modelled as if the bit were dropped:
  `(bit & 1) << b` in `decode_kcs` from b = 31 on (kcs_audio.c:100), and `(byte >> bit)` in `encode_kcs` from
  bit = 32 on (kcs_audio.c:221). Below those counts the shifts are defined and the model gives their C values.
- The signed shifts `header[27] << 24` and `header[43] << 24` in `load_audio` (kcs_audio.c:140, 142) overflow `int`
  for a byte of 128 or more. Both are modelled by `Wav.ReadLe` as plain addition of the byte times 2^24.
- The parity and stop windows read in `decode_kcs` (kcs_audio.c:103-111) are classified and dropped. The unused
  locals `parity_val`, `calc` and `stop_bit` have no effect.
- The `wav_header_t` struct (kcs_audio.c:16-32) is never used.
- The command-line program in `main.c` (argument handling, the read loop, `print_hex`) is not part of this model.
  Only its default format of 8N1 at 1200 baud is used, in `Framing.RoundTrip8N1At1200`.
