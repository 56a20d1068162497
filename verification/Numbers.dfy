/** Arithmetic that several modules share. */
module Numbers {

  const U32_RANGE: nat := 0x1_0000_0000

  function Min(a: nat, b: nat): nat {
    if a < b then a else b
  }

  function Max(a: nat, b: nat): nat {
    if a < b then b else a
  }
}
