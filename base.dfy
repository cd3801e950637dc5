/** Kernel vocabulary shared by the driver model: optional values, the
    errno constants the user interface returns, and the integer views
    that the C return paths go through. */
module Base {

  datatype Option<T> = None | Some(value: T)

  // Linux errno values (include/uapi/asm-generic/errno-base.h and,
  // for the kernel-internal ENOTSUPP, include/linux/errno.h).
  const EFAULT: int := 14
  const EBUSY: int := 16
  const EINVAL: int := 22
  const ENOTSUPP: int := 524

  const TWO_32: int := 0x1_0000_0000

  /** The value a C `u32` holds after an `int` is assigned to it. */
  function AsU32(x: int): (r: int)
    ensures 0 <= r < TWO_32
    ensures (r - x) % TWO_32 == 0
  {
    x % TWO_32
  }

  /** The value a C `int` (32-bit two's complement) holds after a wider
      integer is assigned to it. */
  function AsInt32(x: int): (r: int)
    ensures -TWO_32 / 2 <= r < TWO_32 / 2
    ensures (r - x) % TWO_32 == 0
  {
    var u := x % TWO_32;
    if u < TWO_32 / 2 then u else u - TWO_32
  }

  /** An errno stored in a `u32` and returned through a `long` comes back
      as a positive number; only a later truncation to `int` recovers the
      negative errno. */
  lemma ErrnoThroughU32(e: int)
    requires 0 < e < TWO_32 / 2
    ensures AsU32(-e) == TWO_32 - e
    ensures AsInt32(AsU32(-e)) == -e
  {
  }
}
