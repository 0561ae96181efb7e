/** The parts of an in-memory inode that block allocation works on. */
module Inode {
  import opened BlockPath
  import opened Reservation

  datatype Errno = OK | EAGAIN | EDQUOT | EIO | ENOMEM | ENOSPC

  /** What a request for blocks meets outside: how many requests the quota grants,
      how many new indirect blocks there is memory for, whether the caller may use
      the reserve, and whether the lock on the windows is free when tried. */
  datatype Means = Means(quota: nat, memory: nat, privileged: bool, calm: bool)

  class Inode {
    const data: array<nat> // i_data: the roots of the block tree
    var blocks: int        // i_blocks, in file-system blocks
    var window: Window?    // the window in i_block_alloc_info

    constructor ()
      ensures data.Length == N_BLOCKS && fresh(data)
      ensures forall i :: 0 <= i < N_BLOCKS ==> data[i] == 0
      ensures blocks == 0 && window == null
    {
      data := new nat[N_BLOCKS](_ => 0);
      blocks, window := 0, null;
    }

    ghost function Windows(): set<Window>
      reads this
    {
      if window == null then {} else {window}
    }
  }
}
