/** The ioctl request-number codec of Linux <asm-generic/ioctl.h>.

    A request number is a 32-bit word holding four fields, packed upward from
    the least significant bit:

      bits  0..7   number     (which request of its type)
      bits  8..15  type       (the driver or subsystem, often an ASCII letter)
      bits 16..29  size       (length in bytes of the argument buffer)
      bits 30..31  direction  (NONE, WRITE, READ or READ | WRITE)

    Every constant and every operation is over `bv32`, the model of Rust's
    `u32`: a left shift drops the bits that leave the word, as Rust's `<<` on
    `u32` does for shift amounts below 32.
 */
module Ioctl {

  type u32 = bv32

  /* Field widths. */
  const NRBITS: u32 := 8
  const TYPEBITS: u32 := 8
  const SIZEBITS: u32 := 14
  const DIRBITS: u32 := 2

  /* Direction values; READ | WRITE is the read/write direction. */
  const NONE: u32 := 0
  const WRITE: u32 := 1
  const READ: u32 := 2

  /* Field masks, (1 << width) - 1. */
  const NRMASK: u32 := (1 << NRBITS) - 1
  const TYPEMASK: u32 := (1 << TYPEBITS) - 1
  const SIZEMASK: u32 := (1 << SIZEBITS) - 1
  const DIRMASK: u32 := (1 << DIRBITS) - 1

  /* Field offsets, each field starting where the one below it ends. */
  const NRSHIFT: u32 := 0
  const TYPESHIFT: u32 := NRSHIFT + NRBITS
  const SIZESHIFT: u32 := TYPESHIFT + TYPEBITS
  const DIRSHIFT: u32 := SIZESHIFT + SIZEBITS

  /** The four fields are each within the range their width allows. */
  predicate InRange(dr: u32, ty: u32, nr: u32, sz: u32) {
    dr <= DIRMASK && ty <= TYPEMASK && nr <= NRMASK && sz <= SIZEMASK
  }

  /** `ioc!`: shifts each argument to its offset and ORs the four together.
      The arguments are NOT masked first: bits of an argument beyond its
      field's width land in the fields above it, and whatever is shifted
      past bit 31 falls off the word (`DecodeIoc` gives the exact result). */
  function Ioc(dr: u32, ty: u32, nr: u32, sz: u32): u32 {
    (dr << DIRSHIFT) | (ty << TYPESHIFT) | (nr << NRSHIFT) | (sz << SIZESHIFT)
  }

  /** `io!`: a request that transfers no data. */
  function Io(ty: u32, nr: u32): u32 {
    Ioc(NONE, ty, nr, 0)
  }

  /** `ior!`: a request that reads `sz` bytes from the driver. */
  function Ior(ty: u32, nr: u32, sz: u32): u32 {
    Ioc(READ, ty, nr, sz)
  }

  /** `iow!`: a request that writes `sz` bytes to the driver. */
  function Iow(ty: u32, nr: u32, sz: u32): u32 {
    Ioc(WRITE, ty, nr, sz)
  }

  /** `iowr!`: a request that both writes and reads `sz` bytes. */
  function Iowr(ty: u32, nr: u32, sz: u32): u32 {
    Ioc(READ | WRITE, ty, nr, sz)
  }

  /** `ioc_dir!`: the direction field of `n`. */
  function IocDir(n: u32): (r: u32)
    ensures r <= DIRMASK
  {
    (n >> DIRSHIFT) & DIRMASK
  }

  /** `ioc_type!`: the type field of `n`. */
  function IocType(n: u32): (r: u32)
    ensures r <= TYPEMASK
  {
    (n >> TYPESHIFT) & TYPEMASK
  }

  /** `ioc_nr!`: the number field of `n`. */
  function IocNr(n: u32): (r: u32)
    ensures r <= NRMASK
  {
    (n >> NRSHIFT) & NRMASK
  }

  /** `ioc_size!`: the size field of `n`. */
  function IocSize(n: u32): (r: u32)
    ensures r <= SIZEMASK
  {
    (n >> SIZESHIFT) & SIZEMASK
  }

  // ---------------------------------------------------------------------
  // The layout

  /** The offsets and masks the definitions above produce, and the widths
      filling the word exactly. */
  lemma LayoutConstants()
    ensures NRSHIFT == 0 && TYPESHIFT == 8 && SIZESHIFT == 16 && DIRSHIFT == 30
    ensures NRMASK == 255 && TYPEMASK == 255 && SIZEMASK == 16383 && DIRMASK == 3
    ensures NRBITS + TYPEBITS + SIZEBITS + DIRBITS == 32
    ensures DIRSHIFT + DIRBITS == 32
  {
  }

  /** The four fields, placed at their offsets, do not overlap and together
      cover all 32 bits. */
  lemma LayoutDisjoint()
    ensures (NRMASK << NRSHIFT) & (TYPEMASK << TYPESHIFT) == 0
    ensures (NRMASK << NRSHIFT) & (SIZEMASK << SIZESHIFT) == 0
    ensures (NRMASK << NRSHIFT) & (DIRMASK << DIRSHIFT) == 0
    ensures (TYPEMASK << TYPESHIFT) & (SIZEMASK << SIZESHIFT) == 0
    ensures (TYPEMASK << TYPESHIFT) & (DIRMASK << DIRSHIFT) == 0
    ensures (SIZEMASK << SIZESHIFT) & (DIRMASK << DIRSHIFT) == 0
    ensures (NRMASK << NRSHIFT) | (TYPEMASK << TYPESHIFT)
          | (SIZEMASK << SIZESHIFT) | (DIRMASK << DIRSHIFT) == 0xFFFF_FFFF
  {
  }

  // ---------------------------------------------------------------------
  // Encoding and decoding

  /** What each decoder returns for an encoding of arbitrary arguments: the
      field's own argument, ORed with the bits that overflowed from the
      arguments of the fields below it, cut to the field's width. */
  lemma DecodeIoc(dr: u32, ty: u32, nr: u32, sz: u32)
    ensures IocNr(Ioc(dr, ty, nr, sz)) == nr & NRMASK
    ensures IocType(Ioc(dr, ty, nr, sz)) == (ty | (nr >> 8)) & TYPEMASK
    ensures IocSize(Ioc(dr, ty, nr, sz)) == (sz | (ty >> 8) | (nr >> 16)) & SIZEMASK
    ensures IocDir(Ioc(dr, ty, nr, sz)) == (dr | (sz >> 14) | (ty >> 22) | (nr >> 30)) & DIRMASK
  {
  }

  /** Every field given within its range is decoded back unchanged. */
  lemma RoundTrip(dr: u32, ty: u32, nr: u32, sz: u32)
    requires InRange(dr, ty, nr, sz)
    ensures IocDir(Ioc(dr, ty, nr, sz)) == dr
    ensures IocType(Ioc(dr, ty, nr, sz)) == ty
    ensures IocNr(Ioc(dr, ty, nr, sz)) == nr
    ensures IocSize(Ioc(dr, ty, nr, sz)) == sz
  {
  }

  /** Encoding the four decoded fields of any word gives the word back. */
  lemma ReEncode(n: u32)
    ensures Ioc(IocDir(n), IocType(n), IocNr(n), IocSize(n)) == n
  {
  }

  /** Two in-range field tuples encode to the same word only if they are
      the same tuple. */
  lemma IocInjective(dr: u32, ty: u32, nr: u32, sz: u32, dr': u32, ty': u32, nr': u32, sz': u32)
    requires InRange(dr, ty, nr, sz) && InRange(dr', ty', nr', sz')
    requires Ioc(dr, ty, nr, sz) == Ioc(dr', ty', nr', sz')
    ensures dr == dr' && ty == ty' && nr == nr' && sz == sz'
  {
  }

  /** Every 32-bit word is the encoding of some in-range field tuple, so
      `Ioc` is a bijection from in-range tuples onto all words. */
  lemma IocSurjective(n: u32)
    ensures exists dr: u32, ty: u32, nr: u32, sz: u32 ::
              InRange(dr, ty, nr, sz) && Ioc(dr, ty, nr, sz) == n
  {
    ReEncode(n);
    assert InRange(IocDir(n), IocType(n), IocNr(n), IocSize(n));
  }

  // ---------------------------------------------------------------------
  // Arguments outside their field

  /** Only the direction, the topmost field, is cut to exactly its width:
      all of its extra bits fall off the word. */
  lemma DirTruncated(dr: u32, ty: u32, nr: u32, sz: u32)
    ensures Ioc(dr, ty, nr, sz) == Ioc(dr & DIRMASK, ty, nr, sz)
  {
  }

  /** A number of 256 does not wrap to 0: it becomes type 1. */
  lemma NumberBleedsIntoType()
    ensures Ioc(NONE, 0, 256, 0) == Ioc(NONE, 1, 0, 0)
    ensures Ioc(NONE, 0, 256, 0) != Ioc(NONE, 0, 0, 0)
  {
  }

  /** Bits shifted past bit 31 are lost: size bit 16 and type bit 24 leave
      no trace in the word. */
  lemma HighBitsFallOff()
    ensures Ioc(NONE, 0, 0, 0x1_0000) == Ioc(NONE, 0, 0, 0)
    ensures Ioc(NONE, 0x100_0000, 0, 0) == Ioc(NONE, 0, 0, 0)
  {
  }

  /** A size of 16384 does not wrap to 0: it becomes the WRITE direction. */
  lemma SizeBleedsIntoDirection()
    ensures Ioc(NONE, 0, 0, 0x4000) == Ioc(WRITE, 0, 0, 0)
    ensures IocDir(Ior(0, 0, 0x4000)) == READ | WRITE
  {
  }

  // ---------------------------------------------------------------------
  // Field independence: with in-range arguments, changing one argument of
  // `Ioc` changes only its own field of the result.

  lemma ChangeDir(dr: u32, ty: u32, nr: u32, sz: u32, dr': u32)
    requires InRange(dr, ty, nr, sz) && dr' <= DIRMASK
    ensures IocType(Ioc(dr', ty, nr, sz)) == IocType(Ioc(dr, ty, nr, sz))
    ensures IocNr(Ioc(dr', ty, nr, sz)) == IocNr(Ioc(dr, ty, nr, sz))
    ensures IocSize(Ioc(dr', ty, nr, sz)) == IocSize(Ioc(dr, ty, nr, sz))
    ensures Ioc(dr', ty, nr, sz) ^ Ioc(dr, ty, nr, sz) == (dr' ^ dr) << DIRSHIFT
  {
    RoundTrip(dr, ty, nr, sz);
    RoundTrip(dr', ty, nr, sz);
  }

  lemma ChangeType(dr: u32, ty: u32, nr: u32, sz: u32, ty': u32)
    requires InRange(dr, ty, nr, sz) && ty' <= TYPEMASK
    ensures IocDir(Ioc(dr, ty', nr, sz)) == IocDir(Ioc(dr, ty, nr, sz))
    ensures IocNr(Ioc(dr, ty', nr, sz)) == IocNr(Ioc(dr, ty, nr, sz))
    ensures IocSize(Ioc(dr, ty', nr, sz)) == IocSize(Ioc(dr, ty, nr, sz))
    ensures Ioc(dr, ty', nr, sz) ^ Ioc(dr, ty, nr, sz) == (ty' ^ ty) << TYPESHIFT
  {
    RoundTrip(dr, ty, nr, sz);
    RoundTrip(dr, ty', nr, sz);
  }

  lemma ChangeNr(dr: u32, ty: u32, nr: u32, sz: u32, nr': u32)
    requires InRange(dr, ty, nr, sz) && nr' <= NRMASK
    ensures IocDir(Ioc(dr, ty, nr', sz)) == IocDir(Ioc(dr, ty, nr, sz))
    ensures IocType(Ioc(dr, ty, nr', sz)) == IocType(Ioc(dr, ty, nr, sz))
    ensures IocSize(Ioc(dr, ty, nr', sz)) == IocSize(Ioc(dr, ty, nr, sz))
    ensures Ioc(dr, ty, nr', sz) ^ Ioc(dr, ty, nr, sz) == (nr' ^ nr) << NRSHIFT
  {
    RoundTrip(dr, ty, nr, sz);
    RoundTrip(dr, ty, nr', sz);
  }

  lemma ChangeSize(dr: u32, ty: u32, nr: u32, sz: u32, sz': u32)
    requires InRange(dr, ty, nr, sz) && sz' <= SIZEMASK
    ensures IocDir(Ioc(dr, ty, nr, sz')) == IocDir(Ioc(dr, ty, nr, sz))
    ensures IocType(Ioc(dr, ty, nr, sz')) == IocType(Ioc(dr, ty, nr, sz))
    ensures IocNr(Ioc(dr, ty, nr, sz')) == IocNr(Ioc(dr, ty, nr, sz))
    ensures Ioc(dr, ty, nr, sz') ^ Ioc(dr, ty, nr, sz) == (sz' ^ sz) << SIZESHIFT
  {
    RoundTrip(dr, ty, nr, sz);
    RoundTrip(dr, ty, nr, sz');
  }

  // ---------------------------------------------------------------------
  // The convenience forms

  lemma IoFields(ty: u32, nr: u32)
    requires ty <= TYPEMASK && nr <= NRMASK
    ensures IocDir(Io(ty, nr)) == NONE && IocSize(Io(ty, nr)) == 0
    ensures IocType(Io(ty, nr)) == ty && IocNr(Io(ty, nr)) == nr
  {
  }

  lemma IorFields(ty: u32, nr: u32, sz: u32)
    requires InRange(READ, ty, nr, sz)
    ensures IocDir(Ior(ty, nr, sz)) == 2 && IocSize(Ior(ty, nr, sz)) == sz
    ensures IocType(Ior(ty, nr, sz)) == ty && IocNr(Ior(ty, nr, sz)) == nr
  {
  }

  lemma IowFields(ty: u32, nr: u32, sz: u32)
    requires InRange(WRITE, ty, nr, sz)
    ensures IocDir(Iow(ty, nr, sz)) == 1 && IocSize(Iow(ty, nr, sz)) == sz
    ensures IocType(Iow(ty, nr, sz)) == ty && IocNr(Iow(ty, nr, sz)) == nr
  {
  }

  lemma IowrFields(ty: u32, nr: u32, sz: u32)
    requires InRange(READ | WRITE, ty, nr, sz)
    ensures IocDir(Iowr(ty, nr, sz)) == 3 && IocSize(Iowr(ty, nr, sz)) == sz
    ensures IocType(Iowr(ty, nr, sz)) == ty && IocNr(Iowr(ty, nr, sz)) == nr
  {
  }

  // ---------------------------------------------------------------------
  // Concrete request numbers from <linux/videodev2.h>

  /** VIDIOC_RESERVED, VIDIOC_STREAMON and VIDIOC_LOG_STATUS. */
  lemma VideoDevExamples()
    ensures Io('V' as u32, 1) == 0x5601
    ensures IocType(Io('V' as u32, 1)) == 'V' as u32
    ensures Iow('V' as u32, 18, 4) == 1074026002
    ensures IocNr(Io('V' as u32, 70)) == 70
  {
  }

  /** `iowr!` combines the READ and WRITE bits: the request decodes as
      direction 3. */
  lemma IowrDecodesReadWrite()
    ensures IocDir(Iowr(1, 1, 1)) == READ | WRITE == 3
  {
  }
}
