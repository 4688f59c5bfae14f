/**
 * The sound generator's WAV writer (generate_sounds.py `write_wav`): 16-bit
 * mono PCM in a RIFF/WAVE container with the canonical 44-byte header. The
 * samples arrive already converted by `int()`; the bytes the writer would put
 * into the file are the result.
 */
module Wav {
  import opened Wrappers

  type Byte = b: int | 0 <= b < 256

  const U16Limit: int := 0x1_0000
  const U32Limit: int := 0x1_0000_0000
  const HeaderSize: int := 44

  // ---------------------------------------------------------------- little-endian fields

  /** `struct.pack("<H", v)`. */
  function U16LE(v: int): seq<Byte>
    requires 0 <= v < U16Limit
  {
    [v % 256, v / 256]
  }

  /** `struct.pack("<I", v)`: the low half, then the high half. */
  function U32LE(v: int): seq<Byte>
    requires 0 <= v < U32Limit
  {
    U16LE(v % U16Limit) + U16LE(v / U16Limit)
  }

  /** The unsigned 16-bit little-endian field at `at`. */
  function ReadU16(b: seq<Byte>, at: int): int
    requires 0 <= at && at + 2 <= |b|
  {
    b[at] as int + 256 * (b[at + 1] as int)
  }

  /** The unsigned 32-bit little-endian field at `at`. */
  function ReadU32(b: seq<Byte>, at: int): int
    requires 0 <= at && at + 4 <= |b|
  {
    ReadU16(b, at) + U16Limit * ReadU16(b, at + 2)
  }

  /** The signed (two's-complement) 16-bit little-endian field at `at`. */
  function ReadI16(b: seq<Byte>, at: int): int
    requires 0 <= at && at + 2 <= |b|
  {
    var u := ReadU16(b, at);
    if u < 0x8000 then u else u - U16Limit
  }

  lemma U16RoundTrip(v: int)
    requires 0 <= v < U16Limit
    ensures |U16LE(v)| == 2 && ReadU16(U16LE(v), 0) == v
  {
  }

  lemma U32RoundTrip(v: int)
    requires 0 <= v < U32Limit
    ensures |U32LE(v)| == 4 && ReadU32(U32LE(v), 0) == v
  {
    var lo, hi := v % U16Limit, v / U16Limit;
    U16RoundTrip(lo);
    U16RoundTrip(hi);
    assert U32LE(v)[2..] == U16LE(hi);
  }

  // ---------------------------------------------------------------- samples

  /** `max(-32768, min(32767, s))`. */
  function Clamp(s: int): (r: int)
    ensures -0x8000 <= r <= 0x7FFF
    ensures -0x8000 <= s <= 0x7FFF ==> r == s
    ensures s > 0x7FFF ==> r == 0x7FFF
    ensures s < -0x8000 ==> r == -0x8000
  {
    if s > 0x7FFF then 0x7FFF else if s < -0x8000 then -0x8000 else s
  }

  /** `struct.pack("<h", s)`: two's complement on 16 bits. */
  function I16LE(s: int): seq<Byte>
    requires -0x8000 <= s <= 0x7FFF
  {
    U16LE(if s < 0 then s + U16Limit else s)
  }

  lemma I16RoundTrip(s: int)
    requires -0x8000 <= s <= 0x7FFF
    ensures |I16LE(s)| == 2 && ReadI16(I16LE(s), 0) == s
  {
    U16RoundTrip(if s < 0 then s + U16Limit else s);
  }

  /** `struct.pack(f"<{n}h", *clamped)`: the clamped samples one after another. */
  function Data(samples: seq<int>): seq<Byte>
    decreases |samples|
  {
    if samples == [] then []
    else Data(samples[..|samples| - 1]) + I16LE(Clamp(samples[|samples| - 1]))
  }

  /** Sample `i` is the two bytes at `2 * i`, and nothing else is there. */
  lemma {:induction false} DataLayout(samples: seq<int>)
    ensures |Data(samples)| == 2 * |samples|
    ensures forall i :: 0 <= i < |samples| ==> ReadI16(Data(samples), 2 * i) == Clamp(samples[i])
    decreases |samples|
  {
    if samples != [] {
      var n := |samples| - 1;
      var init := samples[..n];
      DataLayout(init);
      var last := I16LE(Clamp(samples[n]));
      I16RoundTrip(Clamp(samples[n]));
      var d := Data(samples);
      assert d == Data(init) + last;
      forall i | 0 <= i < |samples| ensures ReadI16(d, 2 * i) == Clamp(samples[i]) {
        if i < n {
          assert d[2 * i] == Data(init)[2 * i] && d[2 * i + 1] == Data(init)[2 * i + 1];
          assert samples[i] == init[i];
        } else {
          assert d[2 * i] == last[0] && d[2 * i + 1] == last[1];
        }
      }
    }
  }

  // ---------------------------------------------------------------- the file

  /** ASCII text as bytes. */
  function Ascii(s: string): seq<Byte>
    requires forall i :: 0 <= i < |s| ==> s[i] as int < 128
  {
    seq(|s|, i requires 0 <= i < |s| => s[i] as int)
  }

  /**
   * The "fmt " chunk body: size 16, PCM format 1, one channel, the sample
   * rate, the byte rate (two bytes per sample), block align 2 and 16 bits per
   * sample (`struct.pack("<IHHIIHH", ...)`).
   */
  function FmtChunk(sampleRate: int): seq<Byte>
    requires 0 <= sampleRate && sampleRate * 2 < U32Limit
  {
    U32LE(16) + U16LE(1) + U16LE(1) + U32LE(sampleRate) + U32LE(sampleRate * 2) + U16LE(2) + U16LE(16)
  }

  /** Whether every header field fits its unsigned width; `struct.pack` raises otherwise. */
  predicate Packable(n: int, sampleRate: int) {
    0 <= sampleRate && sampleRate * 2 < U32Limit && 36 + 2 * n < U32Limit
  }

  /**
   * write_wav's bytes: "RIFF", the RIFF size, "WAVE", the fmt chunk, "data",
   * the data size and the samples; None where a header field does not fit.
   */
  function WriteWav(samples: seq<int>, sampleRate: int): Option<seq<Byte>> {
    var data := Data(samples);
    DataLayout(samples);
    if !Packable(|samples|, sampleRate) then None
    else
      Some(Ascii("RIFF") + U32LE(36 + |data|) + Ascii("WAVE") + Ascii("fmt ") + FmtChunk(sampleRate)
           + Ascii("data") + U32LE(|data|) + data)
  }

  /** The writer fails exactly when a header field overflows. */
  lemma WriteWavFails(samples: seq<int>, sampleRate: int)
    ensures WriteWav(samples, sampleRate).None? <==> !Packable(|samples|, sampleRate)
  {
  }

  /** 44 header bytes, then two per sample. */
  lemma WavLength(samples: seq<int>, sampleRate: int)
    requires Packable(|samples|, sampleRate)
    ensures |WriteWav(samples, sampleRate).value| == HeaderSize + 2 * |samples|
  {
    DataLayout(samples);
  }

  /** "RIFF", "WAVE", "fmt " and "data" at offsets 0, 8, 12 and 36. */
  lemma WavTags(samples: seq<int>, sampleRate: int)
    requires Packable(|samples|, sampleRate)
    ensures var w := WriteWav(samples, sampleRate).value;
            && |w| >= HeaderSize
            && w[0..4] == Ascii("RIFF") && w[8..12] == Ascii("WAVE")
            && w[12..16] == Ascii("fmt ") && w[36..40] == Ascii("data")
  {
    DataLayout(samples);
  }

  /** The RIFF size is 36 + 2n and the data size 2n. */
  lemma WavSizes(samples: seq<int>, sampleRate: int)
    requires Packable(|samples|, sampleRate)
    ensures var w := WriteWav(samples, sampleRate).value;
            && |w| >= HeaderSize
            && ReadU32(w, 4) == 36 + 2 * |samples| && ReadU32(w, 40) == 2 * |samples|
  {
    DataLayout(samples);
    var w := WriteWav(samples, sampleRate).value;
    var n := 2 * |samples|;
    U32RoundTrip(36 + n);
    U32RoundTrip(n);
    assert w[4..8] == U32LE(36 + n);
    assert w[40..44] == U32LE(n);
    ReadU32Slice(w, 4, 8, 0);
    ReadU32Slice(w, 40, 44, 0);
  }

  /** A 16-bit field read inside a slice is the field at the same place in the whole. */
  lemma ReadU16Slice(b: seq<Byte>, lo: int, hi: int, at: int)
    requires 0 <= lo <= hi <= |b| && 0 <= at && at + 2 <= hi - lo
    ensures ReadU16(b[lo..hi], at) == ReadU16(b, lo + at)
  {
  }

  lemma ReadU32Slice(b: seq<Byte>, lo: int, hi: int, at: int)
    requires 0 <= lo <= hi <= |b| && 0 <= at && at + 4 <= hi - lo
    ensures ReadU32(b[lo..hi], at) == ReadU32(b, lo + at)
  {
  }

  /** The fmt chunk body decodes to its seven fields. */
  lemma FmtFields(sampleRate: int)
    requires 0 <= sampleRate && sampleRate * 2 < U32Limit
    ensures var f := FmtChunk(sampleRate);
            && |f| == 20
            && ReadU32(f, 0) == 16 && ReadU16(f, 4) == 1 && ReadU16(f, 6) == 1
            && ReadU32(f, 8) == sampleRate && ReadU32(f, 12) == sampleRate * 2
            && ReadU16(f, 16) == 2 && ReadU16(f, 18) == 16
  {
    var f := FmtChunk(sampleRate);
    U32RoundTrip(16);
    U32RoundTrip(sampleRate);
    U32RoundTrip(sampleRate * 2);
    assert f[0..4] == U32LE(16) && f[8..12] == U32LE(sampleRate) && f[12..16] == U32LE(sampleRate * 2);
    ReadU32Slice(f, 0, 4, 0);
    ReadU32Slice(f, 8, 12, 0);
    ReadU32Slice(f, 12, 16, 0);
  }

  /** The fmt chunk's fields, in order. */
  lemma WavFormat(samples: seq<int>, sampleRate: int)
    requires Packable(|samples|, sampleRate)
    ensures var w := WriteWav(samples, sampleRate).value;
            && |w| >= HeaderSize
            && ReadU32(w, 16) == 16 && ReadU16(w, 20) == 1 && ReadU16(w, 22) == 1
            && ReadU32(w, 24) == sampleRate && ReadU32(w, 28) == sampleRate * 2
            && ReadU16(w, 32) == 2 && ReadU16(w, 34) == 16
  {
    DataLayout(samples);
    var w := WriteWav(samples, sampleRate).value;
    var f := FmtChunk(sampleRate);
    FmtFields(sampleRate);
    assert w[16..36] == f;
    ReadU32Slice(w, 16, 36, 0);
    ReadU16Slice(w, 16, 36, 4);
    ReadU16Slice(w, 16, 36, 6);
    ReadU32Slice(w, 16, 36, 8);
    ReadU32Slice(w, 16, 36, 12);
    ReadU16Slice(w, 16, 36, 16);
    ReadU16Slice(w, 16, 36, 18);
  }

  /** Each sample, clamped, is the signed 16-bit field at 44 + 2i. */
  lemma WavSamples(samples: seq<int>, sampleRate: int, i: int)
    requires Packable(|samples|, sampleRate) && 0 <= i < |samples|
    ensures var w := WriteWav(samples, sampleRate).value;
            |w| >= HeaderSize + 2 * i + 2 && ReadI16(w, HeaderSize + 2 * i) == Clamp(samples[i])
  {
    DataLayout(samples);
    var w := WriteWav(samples, sampleRate).value;
    var d := Data(samples);
    assert w[HeaderSize..] == d;
    assert w[HeaderSize + 2 * i] == d[2 * i] && w[HeaderSize + 2 * i + 1] == d[2 * i + 1];
  }
}
