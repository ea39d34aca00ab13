/** What all parts of the kernel share about the machine. */
module Machine {

  const PAGE_SIZE: nat := 4096
  const U32_SPAN: nat := 0x1_0000_0000
  const WORD_SPAN: nat := 0x1_0000_0000_0000_0000     // words and addresses are 64 bits wide

  type byte = b: nat | b < 0x100
}
