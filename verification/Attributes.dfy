/**
 Attributes of an inode and how a server reply changes them
 (include/hsfs/hsi_nfs.h, nfs_common/hsi_nfs_inode.c).
 */
module Attributes {
  import opened Basics

  const LLONG_MAX: int := 0x7fff_ffff_ffff_ffff

  datatype Time = Time(seconds: nat, nseconds: nat)

  /** A decoded reply; `valid` says that the reply carried attributes at all. */
  datatype FAttr = FAttr(valid: bool, fileid: u64, mode: nat, nlink: nat, uid: nat, gid: nat, size: u64, used: u64,
                         atime: Time, mtime: Time, ctime: Time)

  /** The attributes cached in an inode. */
  datatype Attrs = Attrs(mode: nat, nlink: nat, uid: nat, gid: nat, size: int, blocks: int,
                         atime: Time, mtime: Time, ctime: Time)

  /** File types, shifted down. */
  const S_IFDIR: nat := 4
  const S_IFREG: nat := 8

  /** `mode & S_IFMT`, shifted down: the file type. */
  function FileType(mode: nat): nat {
    mode / 0x1000 % 0x10
  }

  /** `nfs_size_to_off_t` */
  function SizeToOff(size: u64): (r: int)
    ensures size < LLONG_MAX ==> r == size
    ensures size >= LLONG_MAX ==> r == LLONG_MAX - 1
  {
    if size > 0x7fff_ffff_ffff_fffe then 0x7fff_ffff_ffff_fffe else size
  }

  /** `nfs_calc_block_size`: the sum wraps at 64 bits. */
  function BlocksUsed(used: u64): (r: int) {
    var blocks := (used + 511) % 0x1_0000_0000_0000_0000 / 512;
    if blocks > 0x7fff_ffff_ffff_ffff then 0x7fff_ffff_ffff_ffff else blocks
  }

  /** The block count covers the bytes, with less than a block to spare, until the sum wraps. */
  lemma BlocksUsedIsCeiling(used: u64)
    ensures (512 * (BlocksUsed(used) - 1) < used <= 512 * BlocksUsed(used)) <==> used <= TWO64 - 512
  {
    if used > TWO64 - 512 {
      assert used + 511 - TWO64 < 512;
      assert (used + 511) % TWO64 == used + 511 - TWO64;
    }
  }

  lemma BlocksUsedValue(used: u64)
    ensures BlocksUsed(used) == if used <= 0xffff_ffff_ffff_fe00 then (used + 511) / 512 else 0
  {
    if used > 0xffff_ffff_ffff_fe00 {
      assert (used + 511) % 0x1_0000_0000_0000_0000 == used + 511 - 0x1_0000_0000_0000_0000;
    }
  }

  /** Every attribute is the reply's: the size clamped below LLONG_MAX, the bytes used in blocks of 512, rounded up
      (none when the sum wraps). */
  ghost predicate Carries(a: Attrs, f: FAttr) {
    && a.mode == f.mode && a.nlink == f.nlink && a.uid == f.uid && a.gid == f.gid
    && a.atime == f.atime && a.mtime == f.mtime && a.ctime == f.ctime
    && a.size == (if f.size < 0x7fff_ffff_ffff_ffff then f.size else 0x7fff_ffff_ffff_fffe)
    && a.blocks == (if f.used <= 0xffff_ffff_ffff_fe00 then (f.used + 511) / 512 else 0)
  }

  /** The bits of `S_IFMT`, 0xf000, agree. */
  ghost predicate SameType(m: nat, n: nat) {
    m / 0x1000 % 0x10 == n / 0x1000 % 0x10
  }

  /** The attributes a complete update writes. */
  function FromReply(f: FAttr): (a: Attrs)
    ensures Carries(a, f)
  {
    BlocksUsedValue(f.used);
    Attrs(f.mode, f.nlink, f.uid, f.gid, SizeToOff(f.size), BlocksUsed(f.used), f.atime, f.mtime, f.ctime)
  }

  /** `nfs_refresh_inode`: the new attributes and the status. */
  function Refresh(fileid: u64, a: Attrs, f: FAttr): (r: (Attrs, int))
    ensures FileType(r.0.mode) == FileType(a.mode)
    ensures r.1 != 0 <==> f.valid && (fileid != f.fileid || FileType(a.mode) != FileType(f.mode))
    ensures r.1 != 0 ==> r == (a, -ESTALE)
    ensures !f.valid ==> r.0 == a
    ensures r.1 == 0 && f.valid ==> r.0 == FromReply(f) && fileid == f.fileid
  {
    if !f.valid then (a, 0)
    else if fileid != f.fileid || FileType(a.mode) != FileType(f.mode) then (a, -ESTALE)
    else (FromReply(f), 0)
  }

  /** The refresh in terms of the reply's fields. */
  lemma RefreshMeans(fileid: u64, a: Attrs, f: FAttr)
    ensures var (a', status) := Refresh(fileid, a, f);
            && (!f.valid ==> a' == a && status == 0)
            && (f.valid && (fileid != f.fileid || !SameType(a.mode, f.mode)) ==> a' == a && status == -116)
            && (f.valid && fileid == f.fileid && SameType(a.mode, f.mode) ==> Carries(a', f) && status == 0)
  {
  }
}
