/** The read-only projection of an inode handed back by `stat`
    (emufs/stat.py).  It has exactly six fields; `data_id` is not one. */
module Stats {
  import opened Inodes

  datatype Stat = Stat(ino: string, mode: nat, size: nat, atime: Time, mtime: Time, ctime: Time)

  /** from_inode: the identifier given, the inode's mode and size, and its
      three timestamps unchanged. */
  function FromInode(inodeId: string, inode: Inode): (s: Stat)
    ensures s.ino == inodeId
    ensures s.mode == inode.mode && s.size == inode.size
    ensures s.atime == inode.atime && s.mtime == inode.mtime && s.ctime == inode.ctime
  {
    Stat(inodeId, inode.mode, inode.size, inode.atime, inode.mtime, inode.ctime)
  }

  /** A stat does not see where the data lives: two inodes that differ only
      in `data_id` project to the same stat. */
  lemma FromInodeIgnoresDataId(inodeId: string, a: Inode, b: Inode)
    requires a.(dataId := b.dataId) == b
    ensures FromInode(inodeId, a) == FromInode(inodeId, b)
  {
  }
}
