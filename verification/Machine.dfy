/** Machine-level conventions shared by the kernel models: 32-bit unsigned
    wrap-around, the RT_ALIGN macro, and an optional value for RT_NULL. */
module Machine {

  datatype Option<+T> = None | Some(value: T)

  /** One past the largest rt_uint32_t. */
  const WORD: nat := 0x1_0000_0000

  /** RT_ALIGN(size, 4) in 32-bit arithmetic: the addition may wrap. */
  function AlignUp(n: nat): (r: nat)
    ensures r % 4 == 0
    ensures n + 3 < WORD ==> n <= r < n + 4
  {
    (n + 3) % WORD / 4 * 4
  }

  /** RT_ALIGN_DOWN(size, 4). */
  function AlignDown(n: nat): (r: nat)
    ensures r % 4 == 0 && r <= n < r + 4
  {
    n / 4 * 4
  }

  function Max(a: nat, b: nat): nat { if a < b then b else a }

  function Min(a: nat, b: nat): nat { if a < b then a else b }
}
