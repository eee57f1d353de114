/** Word and page sizes, and the one fact about products that several modules need. */
module Common {
  const U32 := 0x1_0000_0000
  const PAGE := 4096

  lemma TimesAtLeast(a: int, b: int, m: nat)
    requires a >= b
    ensures a * m >= b * m
  {
  }
}
