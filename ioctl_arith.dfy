/** The request-number layout read as arithmetic rather than bit operations:
    an identifier is the positional number
      dir * 2^30 + size * 2^16 + type * 2^8 + number
    and each field is a quotient by a power of two taken modulo another.
    The reading is stated with 32-bit multiplication, addition and unsigned
    division, and the lemmas here tie the shift-and-mask encoder and
    decoders of module `Ioctl` to it.
 */
module IoctlArith {
  import opened Ioctl

  /** The identifier of a field tuple in positional notation: each field
      weighted by two to the power of its offset. */
  function Positional(dr: u32, ty: u32, nr: u32, sz: u32): u32 {
    dr * 0x4000_0000 + sz * 0x1_0000 + ty * 0x100 + nr
  }

  /* Each field of `n` by division: the quotient by two to the power of the
     field's offset, modulo two to the power of its width. */

  function NumberOf(n: u32): u32 { n % 0x100 }

  function TypeOf(n: u32): u32 { n / 0x100 % 0x100 }

  function SizeOf(n: u32): u32 { n / 0x1_0000 % 0x4000 }

  function DirOf(n: u32): u32 { n / 0x4000_0000 % 4 }

  /** The weights and moduli written out above are the powers of two given
      by the layout's offsets and widths. */
  lemma WeightsMatchLayout()
    ensures (1 as u32) << NRSHIFT == 1 && (1 as u32) << TYPESHIFT == 0x100
    ensures (1 as u32) << SIZESHIFT == 0x1_0000 && (1 as u32) << DIRSHIFT == 0x4000_0000
    ensures (1 as u32) << NRBITS == 0x100 && (1 as u32) << TYPEBITS == 0x100
    ensures (1 as u32) << SIZEBITS == 0x4000 && (1 as u32) << DIRBITS == 4
  {
  }

  /** The positional reading alone: with in-range fields no term overflows
      into another and every field is read back by division. */
  lemma PositionalRoundTrip(dr: u32, ty: u32, nr: u32, sz: u32)
    requires InRange(dr, ty, nr, sz)
    ensures NumberOf(Positional(dr, ty, nr, sz)) == nr
    ensures TypeOf(Positional(dr, ty, nr, sz)) == ty
    ensures SizeOf(Positional(dr, ty, nr, sz)) == sz
    ensures DirOf(Positional(dr, ty, nr, sz)) == dr
  {
  }

  /** With in-range arguments, `ioc!` computes the positional number. */
  lemma IocIsPositional(dr: u32, ty: u32, nr: u32, sz: u32)
    requires InRange(dr, ty, nr, sz)
    ensures Ioc(dr, ty, nr, sz) == Positional(dr, ty, nr, sz)
  {
  }

  /** Each decoder computes its field of the positional reading, for every
      32-bit word. */
  lemma DecodersArePositional(n: u32)
    ensures IocNr(n) == NumberOf(n)
    ensures IocType(n) == TypeOf(n)
    ensures IocSize(n) == SizeOf(n)
    ensures IocDir(n) == DirOf(n)
  {
  }

  /** Out of range, the two readings part: where the sum carries, `ioc!`
      ORs. A number of 0x1FF overlaps the bit of type 1. */
  lemma OutOfRangeNotPositional()
    ensures Ioc(NONE, 1, 0x1FF, 0) == 0x1FF
    ensures Positional(NONE, 1, 0x1FF, 0) == 0x2FF
  {
  }
}
