/** Unsigned 64-bit words with the wrap-around of the machine, and small result types. */
module Machine {

  const WORD_SPAN := 0x1_0000_0000_0000_0000

  /** A value of `uintptr_t`, `size_t` or `uint64_t`. */
  type Word = x: int | 0 <= x < WORD_SPAN

  type Byte = bv8

  function AddW(a: Word, b: Word): Word {
    if a + b < WORD_SPAN then a + b else a + b - WORD_SPAN
  }

  function SubW(a: Word, b: Word): Word {
    if a >= b then a - b else a - b + WORD_SPAN
  }

  /** Memory after bytes were written at an address. */
  function Patch(mem: seq<Byte>, addr: nat, bytes: seq<Byte>): seq<Byte>
    requires addr + |bytes| <= |mem|
  {
    mem[..addr] + bytes + mem[addr + |bytes|..]
  }

  datatype Option<+T> = None | Some(value: T)

  datatype Result<+T, +E> = Ok(value: T) | Err(error: E)
}
