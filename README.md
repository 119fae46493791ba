# ioctl request-number codec

A model of the `ioctlify` crate (`ioctl-gen`), a port of Linux
`<asm-generic/ioctl.h>` to Rust. An ioctl request number is a 32-bit word
that packs four fields, upward from the least significant bit:

| field | width | offset | mask |
|---|---|---|---|
| number | 8 | 0 | 255 |
| type | 8 | 8 | 255 |
| size | 14 | 16 | 16383 |
| direction | 2 | 30 | 3 (NONE = 0, WRITE = 1, READ = 2, READ \| WRITE = 3) |

The crate has one encoder, `ioc!`, which shifts each argument to its offset
and ORs the four together. It has four convenience forms: `io!` (no data),
`ior!` (read), `iow!` (write) and `iowr!` (read and write). It has four
decoders, `ioc_dir!`, `ioc_type!`, `ioc_nr!` and `ioc_size!`, each a right
shift followed by a mask.

## Files

- `ioctl.dfy`, module `Ioctl`: the constants and the nine macros, one
  `bv32` function each. It also proves the layout, the round trips, the
  bijection, field independence, what out-of-range arguments do, the
  convenience forms and the constants from `<linux/videodev2.h>`.
- `ioctl_arith.dfy`, module `IoctlArith`: an independent arithmetic
  reading of the layout. An identifier is `dir * 2^30 + size * 2^16 +
  type * 2^8 + number`, and each field is a quotient modulo a power of two.
  The module proves that the shift-and-mask operations agree with this
  reading.

Every value is a `bv32`, which models Rust's `u32`. Dafny's `<<` on `bv32`
drops the bits shifted out of the word. Rust's `<<` on `u32` does the same
for shift amounts below 32, and every shift in the crate is by a constant
below 32.

### Arguments outside their field

`ioc!` does not mask its arguments. It only casts each argument to `u32`,
shifts it and ORs it in (src/lib.rs:64-67), so a number of 256 does not act
like 0. Only the direction is cut to exactly its width. The other
arguments spill into the fields above their own, and whatever passes bit 31
is lost. The model follows the code:

- `DecodeIoc` states exactly what each decoder returns for any arguments.
- `NumberBleedsIntoType` and `SizeBleedsIntoDirection` show the spilling
  on concrete inputs.
- `DirTruncated` shows that the direction really is truncated.
- `HighBitsFallOff` shows size and type bits that pass bit 31 being lost.
- Round-trip and field-independence properties are stated only for in-range
  arguments.

## Model

| member | source | states |
|---|---|---|
| `Ioctl.LayoutConstants` | src/lib.rs:25-56 | the offsets are 0, 8, 16 and 30; the masks are 255, 255, 16383 and 3; the four widths add up to 32, so the direction field ends at bit 32 |
| `Ioctl.LayoutDisjoint` | src/lib.rs:40-56 | each mask shifted to its own offset overlaps none of the other three, and the four together cover all 32 bits |
| `Ioctl.IocDir` | src/lib.rs:103-107 | `ioc_dir!` returns at most DIRMASK (3) for every word |
| `Ioctl.IocType` | src/lib.rs:109-113 | `ioc_type!` returns at most TYPEMASK (255) for every word |
| `Ioctl.IocNr` | src/lib.rs:115-119 | `ioc_nr!` returns at most NRMASK (255) for every word |
| `Ioctl.IocSize` | src/lib.rs:121-125 | `ioc_size!` returns at most SIZEMASK (16383) for every word |
| `Ioctl.DecodeIoc` | src/lib.rs:58-68 | for any arguments of `ioc!`, each decoder returns its own argument ORed with the bits that spill over from the arguments of the lower fields, cut to the field's width; number is just the number argument masked |
| `Ioctl.RoundTrip` | src/lib.rs:62-68 | with direction ≤ 3, type ≤ 255, number ≤ 255 and size ≤ 16383, the four decoders applied to `ioc!` return the four arguments |
| `Ioctl.ReEncode` | src/lib.rs:104-125 | for every 32-bit word, `ioc!` of its four decoded fields is the word itself |
| `Ioctl.IocInjective` | src/lib.rs:62-68 | two in-range argument tuples with the same `ioc!` result are equal |
| `Ioctl.IocSurjective` | src/lib.rs:62-68 | every 32-bit word is `ioc!` of some in-range tuple, so `ioc!` is a bijection from in-range tuples onto words |
| `Ioctl.DirTruncated` | src/lib.rs:64 | direction bits above the two lowest are dropped: `ioc!` gives the same word for `dr` and `dr & 3`, for any arguments |
| `Ioctl.NumberBleedsIntoType` | src/lib.rs:65-66 | the number field is not masked: number 256 encodes the same word as type 1 with number 0, not the word for number 0 |
| `Ioctl.HighBitsFallOff` | src/lib.rs:65-67 | bits shifted past bit 31 leave no trace: size 0x1_0000 and type 0x100_0000 encode the same word as 0 |
| `Ioctl.SizeBleedsIntoDirection` | src/lib.rs:64-67 | the size field is not masked: size 16384 encodes the WRITE direction, so `ior!` with that size decodes as READ \| WRITE |
| `Ioctl.ChangeDir` | src/lib.rs:64 | with in-range arguments, a new in-range direction leaves type, number and size unchanged; the two words differ only by the two directions XORed together and shifted to offset 30 |
| `Ioctl.ChangeType` | src/lib.rs:65 | with in-range arguments, a new in-range type leaves direction, number and size unchanged; the words differ only at bits 8..15 |
| `Ioctl.ChangeNr` | src/lib.rs:66 | with in-range arguments, a new in-range number leaves direction, type and size unchanged; the words differ only at bits 0..7 |
| `Ioctl.ChangeSize` | src/lib.rs:67 | with in-range arguments, a new in-range size leaves direction, type and number unchanged; the words differ only at bits 16..29 |
| `Ioctl.IoFields` | src/lib.rs:71-77 | with in-range type and number, `io!` decodes to direction NONE, size 0 and the given type and number |
| `Ioctl.IorFields` | src/lib.rs:79-85 | with in-range arguments, `ior!` decodes to direction 2 (READ) and the given type, number and size |
| `Ioctl.IowFields` | src/lib.rs:87-93 | with in-range arguments, `iow!` decodes to direction 1 (WRITE) and the given type, number and size |
| `Ioctl.IowrFields` | src/lib.rs:95-101 | with in-range arguments, `iowr!` decodes to direction 3 (READ \| WRITE) and the given type, number and size |
| `Ioctl.VideoDevExamples` | src/lib.rs:11-18 | `io!(b'V', 1)` is 0x5601 and decodes to type 'V'; `iow!(b'V', 18, 4)` is 1074026002; `ioc_nr!(io!(b'V', 70))` is 70 |
| `Ioctl.IowrDecodesReadWrite` | src/lib.rs:95-107 | `iowr!` sets direction READ \| WRITE: `ioc_dir!(iowr!(1, 1, 1))` is 3 |
| `IoctlArith.WeightsMatchLayout` | src/lib.rs:40-56 | the powers of two used by the arithmetic reading are `1 << offset` for the four offsets and `1 << width` for the four widths |
| `IoctlArith.PositionalRoundTrip` | src/lib.rs:62-68 | in the arithmetic reading alone, in-range fields are recovered from `dir * 2^30 + size * 2^16 + type * 2^8 + number` by division and remainder |
| `IoctlArith.IocIsPositional` | src/lib.rs:62-68 | with in-range arguments, the shift-and-OR encoder computes that positional sum |
| `IoctlArith.DecodersArePositional` | src/lib.rs:104-125 | for every word, each shift-and-mask decoder equals the quotient by 2^offset modulo 2^width |
| `IoctlArith.OutOfRangeNotPositional` | src/lib.rs:64-67 | out of range the two readings differ: `ioc!` ORs where the sum would carry (type 1 with number 0x1FF gives 0x1FF, not 0x2FF) |

## Left out

- Rust's `as u32` casts from the callers' argument types (src/lib.rs:64-67). Every argument is modelled as a `u32` that has already been cast. The truncation or sign extension of casting a wider or signed caller type is not modelled.
- Macro mechanics (`#[macro_export]`, `$crate::` paths, expansion at the call site) are not modelled. Each macro is an ordinary function over `bv32`. The decoders take a `u32` argument, and that loses nothing: each macro ANDs its operand with a `u32` mask, so it compiles only for a `u32` operand (a `u32` value, a reference to one, or a literal typed as `u32`).
- The TODOs about nonstandard platform layouts and `mem::size_of` (src/lib.rs:22-23) are unimplemented in the crate, so there is nothing to model.
- Being evaluable at compile time is a property of Rust constant evaluation, not of the values computed, and is not modelled.
- The crate makes no ioctl system call and does no device I/O; neither does the model.
