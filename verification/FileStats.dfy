/** File records, as update detection fills them in, and the comparators of the replica trees. */
module FileStats {
  import opened SyncRules
  import opened RedBlack

  class FileStat {
    const phash: Hash
    var instruction: Instruction
    var modtime: int
    var inode: nat

    constructor (phash: Hash, instruction: Instruction, modtime: int, inode: nat)
      ensures this.phash == phash && ToEntry() == Entry(instruction, modtime, inode)
    {
      this.phash, this.instruction, this.modtime, this.inode := phash, instruction, modtime, inode;
    }

    function ToEntry(): Entry reads this { Entry(instruction, modtime, inode) }
  }

  function KeyCmp(key: Hash, b: FileStat): int {
    if key < b.phash then -1 else if key > b.phash then 1 else 0
  }

  function DataCmp(a: FileStat, b: FileStat): int {
    if a.phash < b.phash then -1 else if a.phash > b.phash then 1 else 0
  }
}
