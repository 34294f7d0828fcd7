/** The inode kinds and the per-inode private part of src/surffs_inode.h. */
module InodeTypes {
  import opened Base
  import opened Helpers
  import opened WebTypes

  /** `enum SURFFS_INODE_TYPE`. */
  datatype InodeType = Unknown | FileUrl | FileStatus | FilePage | FileLog | Link | Dir

  /** An inode of the tree together with its `struct SURFFS_INODE_PRIVATE`. `size` is the
      `i_size` it was created with; the other fields are the private part. */
  class SurfInode {
    var itype: InodeType
    var webPath: SfsString
    var linkto: SfsString
    var webpage: WebPage?
    var size: int

    /** Both strings are live and do not share a buffer. */
    ghost predicate Valid()
      reads this, webPath, linkto
    {
      && webPath.Valid() && linkto.Valid()
      && webPath != linkto && webPath.data != linkto.data
    }

    /** The private part `surffs_create_inode` sets up: the kind, no page, and two empty
        64-byte strings for the web path and the link target. */
    constructor Create(t: InodeType, fileSize: int)
      ensures Valid() && itype == t && size == fileSize && webpage == null
      ensures fresh(webPath) && fresh(webPath.data) && fresh(linkto) && fresh(linkto.data)
      ensures webPath.Text() == [] && webPath.memlen == 64
      ensures linkto.Text() == [] && linkto.memlen == 64
    {
      itype, size, webpage := t, fileSize, null;
      webPath := new SfsString.Createz(64);
      linkto := new SfsString.Createz(64);
    }
  }
}
