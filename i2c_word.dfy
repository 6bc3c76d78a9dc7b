/** Byte packing of the AS7343 I2C adapter (`I2CWrapper.read_word`,
    `I2CWrapper.write_word`) and the raw register assembly of the MLX90614
    temperature read (`read_temp`). Registers are little-endian: the low
    byte comes first on the bus. */
module I2CWord {
  import opened Wrappers
  import opened Bits

  lemma Pow2Bytes()
    ensures Pow2(8) == 0x100 && Pow2(16) == 0x1_0000
  {
    assert Pow2(4) == 16;
    assert Pow2(8) == 256;
    assert Pow2(12) == 4096;
  }

  /** `read_word`: `data[0] | (data[1] << 8)` on the two bytes the bus
      returns. */
  function ReadWord(data: seq<Byte>): (w: Word)
    requires |data| == 2
    ensures w == data[0] as int + 0x100 * (data[1] as int)
  {
    Pow2Bytes();
    OrDisjoint(data[0], data[1], 8);
    Or(data[0], ShiftLeft(data[1], 8))
  }

  /** `write_word`: the bytes `val & 0xFF` and `(val >> 8) & 0xFF` of any
      Python integer; reading them back gives `val` modulo 2**16. */
  function WriteWord(val: int): (data: seq<Byte>)
    ensures |data| == 2
    ensures data[0] == val % 0x100 && data[1] == (val / 0x100) % 0x100
    ensures ReadWord(data) == val % 0x1_0000
  {
    WriteWordBytes(val);
    var lo, hi := And(val, 0xFF), And(ShiftRight(val, 8), 0xFF);
    assert ReadWord([lo, hi]) == val % 0x1_0000;
    [lo, hi]
  }

  /** The arithmetic behind `write_word`: the two masked bytes are the two
      low base-256 digits of `val`. */
  lemma WriteWordBytes(val: int)
    ensures And(val, 0xFF) == val % 0x100
    ensures And(ShiftRight(val, 8), 0xFF) == (val / 0x100) % 0x100
    ensures val % 0x100 + 0x100 * ((val / 0x100) % 0x100) == val % 0x1_0000
  {
    Pow2Bytes();
    AndLowMask(val, 8);
    AndLowMask(ShiftRight(val, 8), 8);
    DivModSplit(val, 0x100, 0x100);
  }

  /** Round trip: writing a 16-bit value and reading it back gives it back. */
  lemma ReadAfterWrite(val: Word)
    ensures ReadWord(WriteWord(val)) == val
  {
    ModUnique(val, 0x1_0000, 0, val);
  }

  /** Round trip the other way: the bytes read from a register are the
      bytes that writing their combined value produces. */
  lemma WriteAfterRead(data: seq<Byte>)
    requires |data| == 2
    ensures WriteWord(ReadWord(data)) == data
  {
    var w := ReadWord(data);
    ModUnique(w, 0x100, data[1], data[0]);
    ModUnique(data[1], 0x100, 0, data[1]);
  }

  /** `read_temp` line 110: `data[1] << 8 | data[0]` over the three bytes
      read from the MLX90614 (the third is the packet error code and is
      not used). It is the same little-endian combination as `read_word`. */
  function RawTemp(data: seq<Byte>): (raw: Word)
    requires |data| == 3
    ensures raw == ReadWord(data[..2])
  {
    Pow2Bytes();
    OrDisjoint(data[0], data[1], 8);
    OrSymmetric(ShiftLeft(data[1], 8), data[0]);
    Or(ShiftLeft(data[1], 8), data[0])
  }
}
