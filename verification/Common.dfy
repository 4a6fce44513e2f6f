/** Shared result types and the kernel's layout constants. */
module Common {

  datatype Option<+T> = None | Some(value: T)

  datatype Result<+T> = Ok(value: T) | Err(error: string)

  type byte = x: int | 0 <= x < 256

  type Bytes = seq<byte>

  const PAGE_SZ: nat := 4096
  const BLOCK_SZ: nat := 512
  const MEM_OFF: nat := 0x8000_0000
  const KERN_BASE: nat := 0xFFFF_FFFF_8000_0000
  const USIZE_RANGE: nat := 0x1_0000_0000_0000_0000
  const USIZE_MAX: nat := USIZE_RANGE - 1

  function Max(a: nat, b: nat): nat {
    if a >= b then a else b
  }

  function Min(a: nat, b: nat): nat {
    if a <= b then a else b
  }
}
