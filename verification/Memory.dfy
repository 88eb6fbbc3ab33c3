/** Word-addressed memory: what the firmware's pointer casts read and write.
    A cell that was never written reads as zero. */
module Memory {
  type Mem = map<int, int>

  function Rd(m: Mem, a: int): int {
    if a in m then m[a] else 0
  }
}
