/**
 * Bit-field decoding of a board cell value.
 *
 * A cell value is a machine integer whose low byte packs two fields:
 * the low four bits hold the owning player id (0 empty, 1..4 players,
 * 5 neutral) and the bits 0x30 hold a flag (normal, base, fortified,
 * killed).  Decoding first truncates the value to its low byte.
 *
 * The decoders are written with arithmetic: masking a byte with 0x0F
 * keeps its value modulo 16, and masking with 0x30 keeps its value modulo
 * 64 less its value modulo 16 (PlayerMaskIsMod, FlagMaskIsMod prove this
 * on bit-vectors), and truncating a value to its low byte changes neither
 * (ThroughLowByte).
 */
module Cells {

  /** An unsigned 8-bit value. */
  type Byte = x: int | 0 <= x < 256

  type CellType = int

  // Flag values, as found in the bits selected by FlagMask.
  const CellFlagNormal: Byte := 0x00
  const CellFlagBase: Byte := 0x10
  const CellFlagFortified: Byte := 0x20
  const CellFlagKilled: Byte := 0x30

  const FlagMask: bv8 := 0x30
  const PlayerMask: bv8 := 0x0F

  // The plain cell values.
  const CellEmpty: CellType := 0
  const CellPlayer1: CellType := 1
  const CellPlayer2: CellType := 2
  const CellPlayer3: CellType := 3
  const CellPlayer4: CellType := 4
  const CellNeutral: CellType := 5

  predicate IsFlagValue(f: Byte) {
    f == CellFlagNormal || f == CellFlagBase || f == CellFlagFortified || f == CellFlagKilled
  }

  /** The conversion to a byte keeps the value modulo 256 (two's complement truncation). */
  function LowByte(c: CellType): Byte {
    c % 256
  }

  /** On bit-vectors, the player mask selects the value modulo 16. */
  lemma PlayerMaskIsMod(b: bv8)
    ensures (b & PlayerMask) as int == (b as int) % 16
  {
  }

  /** On bit-vectors, the flag mask selects the value modulo 64 less the value modulo 16. */
  lemma FlagMaskIsMod(b: bv8)
    ensures (b & FlagMask) as int == (b as int) % 64 - (b as int) % 16
  {
  }

  lemma ModOfLowByte(c: int)
    ensures c % 256 % 64 == c % 64
    ensures c % 256 % 16 == c % 16
  {
    var q := c / 256;
    assert c == 64 * (4 * q) + c % 256;
    assert c == 16 * (16 * q) + c % 256;
  }

  /**
   * The owner field: the low four bits of the low byte.  Truncating to the
   * byte keeps those bits, so the id is the value modulo 16 (see
   * ThroughLowByte).
   */
  function Player(c: CellType): (id: int)
    ensures 0 <= id <= 15
  {
    c % 16
  }

  /** The flag field: bits 4 and 5 of the low byte, which truncation also keeps; always one of the four flag values. */
  function Flag(c: CellType): (f: Byte)
    ensures IsFlagValue(f)
  {
    var x := c % 64;
    assert x - x % 16 == 16 * (x / 16) && 0 <= x / 16 < 4;
    x - x % 16
  }

  /** Decoding the low byte gives the same fields as decoding the value itself. */
  lemma ThroughLowByte(c: CellType)
    ensures Player(LowByte(c)) == Player(c)
    ensures Flag(LowByte(c)) == Flag(c)
  {
    ModOfLowByte(c);
    assert c % 16 == c % 64 % 16 by {
      var q := c / 64;
      assert c == 16 * (4 * q) + c % 64;
    }
    assert LowByte(c) % 16 == LowByte(c) % 64 % 16 by {
      var q := LowByte(c) / 64;
      assert LowByte(c) == 16 * (4 * q) + LowByte(c) % 64;
    }
  }

  /** Decoding a byte value agrees with masking that byte as a bit-vector, as the decoders are written. */
  lemma DecodeIsMasking(b: bv8)
    ensures Player(b as int) == (b & PlayerMask) as int
    ensures Flag(b as int) as int == (b & FlagMask) as int
  {
    PlayerMaskIsMod(b);
    FlagMaskIsMod(b);
  }

  /** A base cell: bits 4 and 5 of the value read 01. */
  function IsBase(c: CellType): (r: bool)
    ensures r <==> c % 64 / 16 == 1
  {
    FlagBits(c);
    Flag(c) == CellFlagBase
  }

  /** A fortified cell: bits 4 and 5 of the value read 10. */
  function IsFortified(c: CellType): (r: bool)
    ensures r <==> c % 64 / 16 == 2
  {
    FlagBits(c);
    Flag(c) == CellFlagFortified
  }

  /** A killed cell: bits 4 and 5 of the value read 11. */
  function IsKilled(c: CellType): (r: bool)
    ensures r <==> c % 64 / 16 == 3
  {
    FlagBits(c);
    Flag(c) == CellFlagKilled
  }

  /** The flag field is 16 times the two-bit number in bits 4 and 5. */
  lemma FlagBits(c: CellType)
    ensures Flag(c) as int == 16 * (c % 64 / 16)
  {
    var x := c % 64;
    assert x == 16 * (x / 16) + x % 16;
  }

  /** Only normal-flagged cells are attackable: exactly the cells that are neither base, fortified nor killed. */
  predicate CanBeAttacked(c: CellType)
    ensures CanBeAttacked(c) <==> !IsBase(c) && !IsFortified(c) && !IsKilled(c)
  {
    Flag(c) == CellFlagNormal
  }

  /** Every value has exactly one flag status. */
  lemma ExactlyOneStatus(c: CellType)
    ensures IsBase(c) ==> !IsFortified(c) && !IsKilled(c) && !CanBeAttacked(c)
    ensures IsFortified(c) ==> !IsKilled(c) && !CanBeAttacked(c)
    ensures IsKilled(c) ==> !CanBeAttacked(c)
    ensures IsBase(c) || IsFortified(c) || IsKilled(c) || CanBeAttacked(c)
  {
  }

  /** Owner and flag are independent fields: a value packing an id with a flag decodes back to both. */
  lemma FieldsIndependent(p: int, f: Byte)
    requires 0 <= p <= 15 && IsFlagValue(f)
    ensures Player(p + f as int) == p
    ensures Flag(p + f as int) == f
  {
  }

  /** The plain values 0..5 carry the normal flag and decode to themselves; so a neutral cell is attackable. */
  lemma PlainValues(v: CellType)
    requires CellEmpty <= v <= CellNeutral
    ensures Flag(v) == CellFlagNormal && Player(v) == v
    ensures CanBeAttacked(CellNeutral)
  {
  }

  /** Decoding reads only the low byte: values 256 apart decode identically. */
  lemma {:induction false} LowByteOnly(c: CellType, k: int)
    ensures Player(c + 256 * k) == Player(c)
    ensures Flag(c + 256 * k) == Flag(c)
  {
    var a, d := 4 * k, 16 * k;
    assert c + 256 * k == c + 64 * a == c + 16 * d;
    assert (c + 64 * a) / 64 == c / 64 + a;
    assert (c + 16 * d) / 16 == c / 16 + d;
  }
}
