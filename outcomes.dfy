/** Results of the storage engine's operations.

    The Go program stops the whole process on every fault: `log.Fatal` on a
    decoding error or a parent that is not a directory, and a run-time index
    panic wherever a -1 sentinel or a bad number is used as an index into the
    disk or the inode table. Here an operation that would stop the process
    returns `Aborted` with the fault that stopped it. */
module Outcomes {

  datatype Option<+T> = None | Some(value: T)

  datatype Fault =
    | BadIndex        // an index outside the disk or the inode table
    | DiskFull        // the -1 of findFreeDataBlock used as a block index
    | InodeTableFull  // the -1 of findFreeInode used as a block index
    | DecodeFailed    // gob could not decode the bytes of a block
    | NotADirectory   // the parent handed to AddFileToDirectory is not a directory

  datatype Result<+T> = Ok(value: T) | Aborted(fault: Fault)
}
