/** Fixed-width machine values shared by the C components. */
module Machine {

  newtype byte = x: int | 0 <= x < 256

  /** One past the largest 32-bit unsigned value. */
  const U32: nat := 0x1_0000_0000

  datatype Option<+T> = None | Some(value: T)

  /** 32-bit unsigned addition, with the wrap-around of C. */
  function Add32(a: nat, b: nat): (r: nat)
    requires a < U32 && b < U32
    ensures r == (a + b) % U32
  {
    if a + b < U32 then a + b else a + b - U32
  }

  /** A 16-bit value, low byte first. */
  function Le16(n: nat): (s: seq<byte>)
    requires n < 0x1_0000
    ensures |s| == 2 && FromLe16(s[0], s[1]) == n
  {
    [(n % 256) as byte, (n / 256) as byte]
  }

  function FromLe16(lo: byte, hi: byte): (n: nat)
    ensures n < 0x1_0000
  {
    lo as nat + 256 * hi as nat
  }

  function Min(a: nat, b: nat): nat {
    if a <= b then a else b
  }

  function Max(a: nat, b: nat): nat {
    if a >= b then a else b
  }
}
