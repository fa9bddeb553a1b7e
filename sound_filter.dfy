/**
 * Java's signed byte and short, and the narrowing casts between them and int.
 */
module JavaBytes {
  newtype int8 = x: int | -0x80 <= x < 0x80
  newtype int16 = x: int | -0x8000 <= x < 0x8000

  /** (byte) v for v in [0, 256): the low 8 bits read as two's complement. */
  function ToByte(v: int): (b: int8)
    requires 0 <= v < 0x100
    ensures (b as int - v) % 0x100 == 0
  {
    if v >= 0x80 then (v - 0x100) as int8 else v as int8
  }

  /** b & 0xFF: the byte's bits read as unsigned. */
  function Unsigned(b: int8): (u: int)
    ensures 0 <= u < 0x100 && (u - b as int) % 0x100 == 0
  {
    if b < 0 then b as int + 0x100 else b as int
  }

  /** (short) v for v in [0, 65536): the low 16 bits read as two's complement. */
  function ToShort(v: int): (s: int16)
    requires 0 <= v < 0x1_0000
    ensures (s as int - v) % 0x1_0000 == 0
  {
    if v >= 0x8000 then (v - 0x1_0000) as int16 else v as int16
  }
}

/**
 * The sample helpers of convcomm/engine/audio/SoundFilter.java: 16-bit signed
 * little-endian stereo frames in a byte array, four bytes per frame, left
 * sample first.
 */
module SoundFilters {
  import opened JavaBytes

  /** The sample whose low byte is lo and high byte is hi: (short)(((hi & 0xFF) << 8) | (lo & 0xFF)). */
  function Decode(lo: int8, hi: int8): int16
  {
    ToShort(Unsigned(hi) * 0x100 + Unsigned(lo))
  }

  /** (byte)(sample & 0xFF) */
  function Low(sample: int16): int8
  {
    ToByte(sample as int % 0x100)
  }

  /** (byte)((sample >> 8) & 0xFF), where >> is an arithmetic (flooring) shift. */
  function High(sample: int16): int8
  {
    ToByte((sample as int / 0x100) % 0x100)
  }

  /** Writing a sample and reading it back gives the sample. */
  lemma EncodeDecode(sample: int16)
    ensures Decode(Low(sample), High(sample)) == sample
  {
    var s := sample as int;
    var u := (s / 0x100) % 0x100 * 0x100 + s % 0x100;
    assert Unsigned(Low(sample)) == s % 0x100;
    assert Unsigned(High(sample)) == (s / 0x100) % 0x100;
    if s >= 0 {
      assert u == s;
    } else {
      assert u == s + 0x1_0000;
    }
  }

  /** Reading two bytes as a sample and writing it back gives the same two bytes. */
  lemma DecodeEncode(lo: int8, hi: int8)
    ensures Low(Decode(lo, hi)) == lo && High(Decode(lo, hi)) == hi
  {
    var v := Unsigned(hi) * 0x100 + Unsigned(lo);
    var s := Decode(lo, hi) as int;
    assert s == v || s == v - 0x1_0000;
    assert s % 0x100 == Unsigned(lo);
    assert (s / 0x100) % 0x100 == Unsigned(hi);
  }

  /** getLeftSample: the sample in bytes position and position + 1. */
  function GetLeftSample(buffer: array<int8>, position: int): (s: int16)
    reads buffer
    requires 0 <= position && position + 1 < buffer.Length
    ensures Low(s) == buffer[position] && High(s) == buffer[position + 1]
  {
    DecodeEncode(buffer[position], buffer[position + 1]);
    Decode(buffer[position], buffer[position + 1])
  }

  /** getRightSample: the sample in bytes position + 2 and position + 3. */
  function GetRightSample(buffer: array<int8>, position: int): (s: int16)
    reads buffer
    requires 0 <= position && position + 3 < buffer.Length
    ensures Low(s) == buffer[position + 2] && High(s) == buffer[position + 3]
  {
    DecodeEncode(buffer[position + 2], buffer[position + 3]);
    Decode(buffer[position + 2], buffer[position + 3])
  }

  /** setLeftSample: writes the sample into bytes position and position + 1 and nowhere else. */
  method SetLeftSample(buffer: array<int8>, position: int, sample: int16)
    requires 0 <= position && position + 1 < buffer.Length
    modifies buffer
    ensures buffer[..] == old(buffer[..])[position := Low(sample)][position + 1 := High(sample)]
    ensures GetLeftSample(buffer, position) == sample
  {
    buffer[position] := Low(sample);
    buffer[position + 1] := High(sample);
    EncodeDecode(sample);
  }

  /** setRightSample: writes the sample into bytes position + 2 and position + 3 and nowhere else. */
  method SetRightSample(buffer: array<int8>, position: int, sample: int16)
    requires 0 <= position && position + 3 < buffer.Length
    modifies buffer
    ensures buffer[..] == old(buffer[..])[position + 2 := Low(sample)][position + 3 := High(sample)]
    ensures GetRightSample(buffer, position) == sample
  {
    buffer[position + 2] := Low(sample);
    buffer[position + 3] := High(sample);
    EncodeDecode(sample);
  }

  /** setSample: both samples of the frame at position read back, and no other byte changes. */
  method SetSample(buffer: array<int8>, position: int, leftSample: int16, rightSample: int16)
    requires 0 <= position && position + 3 < buffer.Length
    modifies buffer
    ensures GetLeftSample(buffer, position) == leftSample
    ensures GetRightSample(buffer, position) == rightSample
    ensures forall i :: 0 <= i < buffer.Length && !(position <= i < position + 4) ==> buffer[i] == old(buffer[i])
  {
    SetLeftSample(buffer, position, leftSample);
    SetRightSample(buffer, position, rightSample);
  }
}
