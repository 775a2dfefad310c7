/** The sizes of the machine: 32-bit words and 4 kB pages. */
module Words {
  const WORD: nat := 0x1_0000_0000
  const PGSIZE: nat := 4096
}
