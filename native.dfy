/** The machine types the program uses: `u8` and a 64-bit `usize`. */
module Native {

  /** The largest `usize` on a 64-bit target. */
  const USIZE_MAX: nat := 0xFFFF_FFFF_FFFF_FFFF

  type usize = n: nat | n <= USIZE_MAX

  newtype byte = x: int | 0 <= x < 256

  /** Every byte of `s` is zero. */
  predicate AllZero(s: seq<byte>)
  {
    forall i :: 0 <= i < |s| ==> s[i] == 0
  }
}
