/**
 Block sizes, what mount makes of its data and of the server's FSINFO reply, and statfs
 (nfs3/hsi_nfs3_mount.c, nfs3/hsi_nfs3_fsinfo.c, fuse/hsx_fuse_statfs.c; sections 3.3.18 and 3.3.19 of RFC 1813).
 */
module Mount {
  import opened Basics
  import opened Hash

  // ----- powers of two and bit tests -----

  /** `a & b` */
  function BitAnd(a: nat, b: nat): nat
    decreases a
  {
    if a == 0 || b == 0 then 0 else (if a % 2 == 1 && b % 2 == 1 then 1 else 0) + 2 * BitAnd(a / 2, b / 2)
  }

  ghost predicate IsPow2(n: int) {
    exists k: nat :: n == Pow2(k)
  }

  /** `r` is the largest power of two that is not above `n`, and `k` its exponent. */
  ghost predicate Floor2(r: int, k: nat, n: int) {
    r == Pow2(k) && r <= n < 2 * r
  }

  /** One bit at a time. */
  lemma {:induction false} BitAndStep(n: nat, h: nat)
    ensures BitAnd(n, 2 * h) == 2 * BitAnd(n / 2, h)
    ensures BitAnd(n, 2 * h + 1) == n % 2 + 2 * BitAnd(n / 2, h)
  {
    BitAndHalf(n, 2 * h, h);
    BitAndHalf(n, 2 * h + 1, h);
  }

  lemma {:induction false} BitAndHalf(n: nat, b: nat, h: nat)
    requires b / 2 == h
    ensures BitAnd(n, b) == (if b % 2 == 1 then n % 2 else 0) + 2 * BitAnd(n / 2, h)
  {
    if n == 0 || b == 0 {
      assert BitAnd(n / 2, h) == 0;
    }
  }

  lemma {:induction false} BitAndSelf(m: nat)
    ensures BitAnd(m, m) == m
  {
    if m > 0 {
      BitAndSelf(m / 2);
    }
  }

  /** The test `n & (n - 1)`: zero for the powers of two alone. */
  lemma {:induction false} BitAndPred(n: nat)
    requires n > 0
    ensures BitAnd(n, n - 1) == 0 <==> IsPow2(n)
  {
    var m := n / 2;
    if n == 1 {
      assert n == Pow2(0);
    } else if n % 2 == 0 {
      assert BitAnd(n, n - 1) == 2 * BitAnd(m, m - 1);
      BitAndPred(m);
      EvenPow2(m);
    } else {
      BitAndSelf(m);
      assert BitAnd(n, n - 1) == 2 * m;
      forall k: nat ensures n != Pow2(k) { assert k > 0 ==> Pow2(k) % 2 == 0; }
    }
  }

  lemma EvenPow2(m: nat)
    requires m > 0
    ensures IsPow2(2 * m) <==> IsPow2(m)
  {
    if IsPow2(m) {
      var k: nat :| m == Pow2(k);
      assert 2 * m == Pow2(k + 1);
    }
    if IsPow2(2 * m) {
      var k: nat :| 2 * m == Pow2(k);
      assert k > 0 && m == Pow2(k - 1);
    }
  }

  /** The test of the topmost possible bit. */
  lemma {:induction false} BitAndTop(n: nat, k: nat)
    requires n < 2 * Pow2(k)
    ensures BitAnd(n, Pow2(k)) != 0 <==> n >= Pow2(k)
  {
    if k > 0 {
      BitAndTop(n / 2, k - 1);
    }
  }

  /** The mask with every bit from `k` up to `w` set tests for anything at or above bit `k`. */
  lemma {:induction false} BitAndHigh(n: nat, k: nat, w: nat)
    requires k <= w && n < Pow2(w) && Pow2(k) <= Pow2(w)
    ensures BitAnd(n, Pow2(w) - Pow2(k)) != 0 <==> n >= Pow2(k)
  {
    if k > 0 {
      BitAndHigh(n / 2, k - 1, w - 1);
      BitAndStep(n, Pow2(w - 1) - Pow2(k - 1));
    } else {
      BitAndOnes(n, w);
    }
  }

  lemma {:induction false} BitAndOnes(n: nat, w: nat)
    requires n < Pow2(w)
    ensures BitAnd(n, Pow2(w) - 1) == n
  {
    if n > 0 {
      BitAndOnes(n / 2, w - 1);
      BitAndStep(n, Pow2(w - 1) - 1);
    }
  }

  lemma {:induction false} Pow2Grows(a: nat, b: nat)
    requires a < b
    ensures 2 * Pow2(a) <= Pow2(b)
    decreases b
  {
    if a < b - 1 {
      Pow2Grows(a, b - 1);
    }
  }

  lemma Pow2Is31()
    ensures Pow2(31) == 0x8000_0000 && Pow2(64) == TWO64
  {
    Pow2Values();
    Pow2Add(10, 20);
  }

  // ----- block sizes -----

  /** The sign-extended value of the `int` expression `1 << k` as an unsigned long: bit 31 drags all the higher ones along. */
  function IntBit(k: nat): (m: u64)
    requires k <= 31
    ensures k < 31 ==> m == Pow2(k)
    ensures k == 31 ==> m == Pow2(64) - Pow2(31) == 0xffff_ffff_8000_0000
  {
    Pow2Is31();
    if k < 31 then Pow2Grows(k, 31); Pow2(k) else 0xffff_ffff_8000_0000
  }

  /** What the scan tests at `k` once it has come down to it. */
  lemma IntBitTest(n: u64, k: nat)
    requires k <= 31 && (k < 31 ==> n < 2 * Pow2(k))
    ensures BitAnd(n, IntBit(k)) != 0 <==> n >= Pow2(k)
  {
    Pow2Is31();
    if k < 31 {
      BitAndTop(n, k);
    } else {
      BitAndHigh(n, 31, 64);
    }
  }

  /** No power of two is the sign-extended bit 31. */
  lemma Bit31NotFloor(n: u64)
    requires n >= 0x8000_0000
    ensures !Rounded(0xffff_ffff_8000_0000, n)
  {
    Pow2Is31();
    forall k: nat ensures Pow2(k) != 0xffff_ffff_8000_0000 {
      assert Pow2(64) == 2 * Pow2(63);
      if k < 63 {
        Pow2Grows(k, 63);
      } else if k > 63 {
        Pow2Grows(63, k);
      }
    }
  }

  /** The downward bit scan of `hsfs_block_bits`. */
  method Scan(bsize: u64) returns (nrbits: nat)
    ensures nrbits <= 31 && (bsize >= 0x8000_0000 ==> nrbits == 31) && (bsize == 0 ==> nrbits == 0)
    ensures 0 < bsize < 0x8000_0000 ==> nrbits < 31 && Floor2(Pow2(nrbits), nrbits, bsize)
  {
    Pow2Is31();
    nrbits := 31;
    IntBitTest(bsize, 31);
    while nrbits != 0 && BitAnd(bsize, IntBit(nrbits)) == 0
      invariant nrbits <= 31 && (nrbits < 31 ==> bsize < 2 * Pow2(nrbits) && bsize < 0x8000_0000)
      invariant BitAnd(bsize, IntBit(nrbits)) != 0 <==> bsize >= Pow2(nrbits)
      decreases nrbits
    {
      nrbits := nrbits - 1;
      IntBitTest(bsize, nrbits);
    }
  }

  ghost predicate Rounded(r: int, n: int) {
    exists k: nat :: Floor2(r, k, n)
  }

  lemma Pow2Rounded(n: int)
    requires IsPow2(n)
    ensures Rounded(n, n)
  {
    var k: nat :| n == Pow2(k);
    assert Floor2(n, k, n);
  }

  /** `hsfs_block_bits`, asked for the bits or not. It rounds down to a power of two, exactly below 2^31 or where
      there is nothing to do. */
  method BlockBits(bsize: u64, want: bool) returns (r: u64, nrbits: nat)
    ensures Rounded(r, bsize) <==> 0 < bsize < 0x8000_0000 || (!want && IsPow2(bsize))
    ensures 0 < bsize < 0x8000_0000 && want ==> Floor2(r, nrbits, bsize)
    ensures bsize >= 0x8000_0000 && (want || !IsPow2(bsize)) ==> r == 0xffff_ffff_8000_0000
    ensures bsize == 0 ==> r == if want then 1 else 0
    ensures nrbits <= 31
  {
    r, nrbits := bsize, 0;
    var pred := if bsize == 0 then 0xffff_ffff_ffff_ffff else bsize - 1;
    if bsize > 0 {
      BitAndPred(bsize);
    }
    if BitAnd(bsize, pred) != 0 || want {
      nrbits := Scan(bsize);
      r := IntBit(nrbits);
      if bsize >= 0x8000_0000 {
        Bit31NotFloor(bsize);
      }
    } else if bsize > 0 {
      Pow2Rounded(bsize);
    }
  }

  /** The sizes `hsfs_block_size` rounds: the default for too small a one, the maximum for too large a one. */
  function Clamped(bsize: u64): (c: u64)
    ensures 1024 <= c <= 0x10_0000
    ensures bsize < 1024 ==> c == 4096
    ensures 1024 <= bsize <= 0x10_0000 ==> c == bsize
    ensures bsize > 0x10_0000 ==> c == 0x10_0000
  {
    if bsize < 1024 then 4096 else if bsize >= 0x10_0000 then 0x10_0000 else bsize
  }

  /** `hsfs_block_size` */
  method BlockSize(bsize: u64, want: bool) returns (r: u64, nrbits: nat)
    ensures Rounded(r, Clamped(bsize))
    ensures 1024 <= r <= 0x10_0000
    ensures want ==> r == Pow2(nrbits) && 10 <= nrbits <= 20
    ensures 1024 <= bsize ==> r <= bsize
  {
    var c: u64 := if bsize < 1024 then 4096 else if bsize >= 0x10_0000 then 0x10_0000 else bsize;
    r, nrbits := BlockBits(c, want);
    ghost var k: nat :| Floor2(r, k, c);
    Pow2Values();
    SizeBits(k, c);
    if want {
      SizeBits(nrbits, c);
    }
  }

  lemma SizeBits(k: nat, c: int)
    requires 1024 <= c <= 0x10_0000 && Pow2(k) <= c < 2 * Pow2(k)
    ensures 10 <= k <= 20 && Pow2(k) >= 1024
  {
    Pow2Values();
    if k < 10 {
      Pow2Grows(k, 10);
    } else if k > 20 {
      Pow2Grows(20, k);
    } else if k > 10 {
      Pow2Grows(10, k);
    }
  }

  // ----- mount data and FSINFO -----

  const IPPROTO_TCP: int := 6
  const IPPROTO_UDP: int := 17

  /** The read and write size a transport starts with: 64 KB, `UDPMSGSIZE`, `RPC_MAXDATASIZE`. */
  function TransportSize(prot: int): (r: u32)
    ensures 1024 <= r <= 0x10_0000
  {
    if prot == IPPROTO_TCP || prot == 0 then 65536 else if prot == IPPROTO_UDP then 8800 else 9000
  }

  datatype FsInfo = FsInfo(rtmax: u32, rtpref: u32, rtmult: u32, wtmax: u32, wtpref: u32, wtmult: u32, dtpref: u32)

  /** The attribute cache bounds: the defaults for what was not given, and for a pair in the wrong order. */
  function CacheBounds(lo: int, hi: int, defLo: int, defHi: int): (r: (int, int))
    requires 0 < defLo <= defHi
    ensures r.0 <= r.1 && r.0 != 0 && r.1 != 0
    ensures lo != 0 && hi != 0 && lo <= hi ==> r == (lo, hi)
    ensures lo == 0 == hi || lo > hi != 0 || (hi == 0 && lo > defHi) ==> r == (defLo, defHi)
    ensures lo == 0 < hi ==> r == (defLo, if hi < defLo then defHi else hi)
    ensures hi == 0 != lo <= defHi ==> r == (lo, defHi)
  {
    var a, b := if lo == 0 then defLo else lo, if hi == 0 then defHi else hi;
    if a > b then (defLo, defHi) else (a, b)
  }

  /** `r` is the size `p`, brought down to the server's maximum by rounding, unless that is below 512, and to 2^20. */
  ghost predicate Limited(r: int, p: int, max: u32) {
    if max >= 512 && p > max then Rounded(r, Clamped(max)) else r == if p > 0x10_0000 then 0x10_0000 else p
  }

  /** `r` is the size to use: what was set, or else what the server prefers, rounded; then limited. */
  ghost predicate Chosen(r: int, size: u32, pref: u32, max: u32) {
    exists p :: (if size == 0 then Rounded(p, Clamped(pref)) else p == size) && Limited(r, p, max)
  }

  /** The read or the write size of `hsi_fsinfo_to_super`, given the size so far and what the server prefers and allows. */
  method IoSize(size: u32, pref: u32, max: u32) returns (r: u32)
    ensures r > 0 && Chosen(r, size, pref, max)
    ensures size == 0 || size >= 1024 ==> 1024 <= r <= 0x10_0000 && (r <= max <==> max >= 1024)
    ensures 0 < size <= 0x10_0000 && (max < 512 || size <= max) ==> r == size
    ensures size > max && max >= 512 ==> Rounded(r, Clamped(max))
    ensures size == 0 && (max < 512 || Clamped(pref) <= max) ==> Rounded(r, Clamped(pref))
  {
    r := size;
    ghost var bits;
    if r == 0 {
      r, bits := BlockSize(pref, false);
    }
    ghost var p := r;
    if max >= 512 && r > max {
      r, bits := BlockSize(max, false);
    }
    if r > 0x10_0000 {
      r := 0x10_0000;
    }
    assert Limited(r, p, max);
  }

  function Least(a: int, b: int, c: int): int {
    if a <= b && a <= c then a else if b <= c then b else c
  }

  /** The part of `struct hsfs_super` that mount fills in. */
  class MountData {
    var timeo: int
    var retrans: int
    var acregmin: int
    var acregmax: int
    var acdirmin: int
    var acdirmax: int
    var bsize: u32
    var bsizeBits: nat
    var rsize: u32
    var wsize: u32
    var dtsize: u32
    var wtmult: u32

    /** `hsi_validate_mount_data`: sizes given as options are replaced by those of the transport. */
    method Validate(prot: int)
      modifies this
      ensures timeo == (if old(timeo) == 0 then 600 else old(timeo))
      ensures retrans == (if old(retrans) == 0 then 3 else old(retrans))
      ensures (acregmin, acregmax) == old(CacheBounds(acregmin, acregmax, 3, 60))
      ensures (acdirmin, acdirmax) == old(CacheBounds(acdirmin, acdirmax, 30, 60))
      ensures Rounded(bsize, Clamped(old(bsize))) && bsize == Pow2(bsizeBits) && 10 <= bsizeBits <= 20
      ensures rsize == wsize == TransportSize(prot)
      ensures rsize == if prot in {0, 6} then 65536 else if prot == 17 then 8800 else 9000
      ensures dtsize == old(dtsize) && wtmult == old(wtmult)
    {
      if timeo == 0 {
        timeo := 600;
      }
      if retrans == 0 {
        retrans := 3;
      }
      var reg, dir := CacheBounds(acregmin, acregmax, 3, 60), CacheBounds(acdirmin, acdirmax, 30, 60);
      acregmin, acregmax, acdirmin, acdirmax := reg.0, reg.1, dir.0, dir.1;
      bsize, bsizeBits := BlockSize(bsize, true);
      rsize := TransportSize(prot);
      wsize := rsize;
    }

    /** `hsi_fsinfo_to_super`; the page product wraps at 32 bits. */
    method FromFsInfo(info: FsInfo, page: u32)
      modifies `rsize, `wsize, `dtsize, `wtmult
      ensures rsize > 0 && Chosen(rsize, old(rsize), info.rtpref, info.rtmax)
      ensures wsize > 0 && Chosen(wsize, old(wsize), info.wtpref, info.wtmax)
      ensures old(rsize) == 0 || old(rsize) >= 1024 ==> 1024 <= rsize <= 0x10_0000 && (rsize <= info.rtmax <==> info.rtmax >= 1024)
      ensures old(wsize) == 0 || old(wsize) >= 1024 ==> 1024 <= wsize <= 0x10_0000 && (wsize <= info.wtmax <==> info.wtmax >= 1024)
      ensures 0 < old(rsize) <= 0x10_0000 && (info.rtmax < 512 || old(rsize) <= info.rtmax) ==> rsize == old(rsize)
      ensures 0 < old(wsize) <= 0x10_0000 && (info.wtmax < 512 || old(wsize) <= info.wtmax) ==> wsize == old(wsize)
      ensures var cap := page * 8 % 0x1_0000_0000;
              && dtsize <= rsize && dtsize <= cap && (dtsize > 0 <==> cap > 0)
              && exists d :: Rounded(d, Clamped(info.dtpref)) && dtsize == Least(d, cap, rsize)
      ensures if info.wtmult == 0 then wtmult == 0 else Rounded(wtmult, info.wtmult)
    {
      rsize := IoSize(rsize, info.rtpref, info.rtmax);
      wsize := IoSize(wsize, info.wtpref, info.wtmax);
      var d, bits := BlockSize(info.dtpref, false);
      assert Rounded(d, Clamped(info.dtpref));
      if d > page * 8 % 0x1_0000_0000 {
        d := page * 8 % 0x1_0000_0000;
      }
      if d > rsize {
        d := rsize;
      }
      dtsize := d;
      wtmult := WriteMultiple(info.wtmult);
    }

    /** Mount as a whole: whatever was in the options and whatever the server answers. */
    method Negotiate(prot: int, info: FsInfo, page: u32)
      requires 0 < page < 0x2000_0000
      modifies this
      ensures 1024 <= rsize <= 0x10_0000 && (rsize <= info.rtmax <==> info.rtmax >= 1024)
      ensures 1024 <= wsize <= 0x10_0000 && (wsize <= info.wtmax <==> info.wtmax >= 1024)
      ensures Chosen(rsize, TransportSize(prot), info.rtpref, info.rtmax) && Chosen(wsize, TransportSize(prot), info.wtpref, info.wtmax)
      ensures 0 < dtsize <= rsize && dtsize <= 8 * page
      ensures bsize == Pow2(bsizeBits) && 10 <= bsizeBits <= 20
    {
      Validate(prot);
      FromFsInfo(info, page);
    }
  }

  /** The write multiple, kept in 32 bits: the truncation undoes the sign extension of bit 31. */
  method WriteMultiple(wtmult: u32) returns (r: u32)
    ensures if wtmult == 0 then r == 0 else Rounded(r, wtmult)
  {
    var w, bits := BlockBits(wtmult, false);
    if wtmult >= 0x8000_0000 && w != wtmult {
      assert w == 0xffff_ffff_8000_0000 by {
        if IsPow2(wtmult) {
          SamePow2(w, wtmult);
        }
      }
      Pow2Is31();
      assert Floor2(0x8000_0000, 31, wtmult);
    }
    r := w % 0x1_0000_0000;
  }

  lemma SamePow2(r: int, n: int)
    requires IsPow2(n) && Rounded(r, n)
    ensures r == n
  {
    var a: nat, b: nat :| n == Pow2(a) && Floor2(r, b, n);
    if a < b {
      Pow2Grows(a, b);
    } else if b < a {
      Pow2Grows(b, a);
    }
  }

  // ----- statfs -----

  datatype StatVfs = StatVfs(bsize: nat, frsize: nat, blocks: nat, bfree: nat, bavail: nat,
                             files: u64, ffree: u64, favail: u64, flag: int, namemax: int)

  /** `(bytes + (1 << bits) - 1) >> bits`, the sum wrapping at 64 bits. */
  function Blocks(bytes: u64, bits: nat): (r: nat)
    requires bits <= 30
  {
    Shifted64((bytes + Pow2(bits) - 1) % 0x1_0000_0000_0000_0000, Pow2(bits))
  }

  function Shifted64(sum: nat, size: int): (q: nat)
    requires size > 0
    ensures q * size <= sum < q * size + size
  {
    sum / size
  }

  /** Enough blocks for the bytes, with less than a block to spare. */
  ghost predicate Ceiling(blocks: int, bytes: int, size: int) {
    bytes <= blocks * size < bytes + size
  }

  /** A sum taken modulo 2^64 and rounded down to a multiple `t` of the size. */
  lemma WrappedMultiple(bytes: u64, size: int, t: int)
    requires 0 < size < 0x8000_0000
    requires var sum := (bytes + size - 1) % 0x1_0000_0000_0000_0000; t <= sum < t + size
    ensures bytes <= t < bytes + size <==> bytes <= 0x1_0000_0000_0000_0000 - size
  {
    if bytes + size - 1 >= 0x1_0000_0000_0000_0000 {
      assert (bytes + size - 1) % 0x1_0000_0000_0000_0000 == bytes + size - 1 - 0x1_0000_0000_0000_0000;
    }
  }

  /** The block count is the exact ceiling as long as the sum stays in 64 bits, and never beyond. */
  lemma BlocksCeiling(bytes: u64, bits: nat)
    requires bits <= 30
    ensures Ceiling(Blocks(bytes, bits), bytes, Pow2(bits)) <==> bytes <= TWO64 - Pow2(bits)
  {
    Pow2Is31();
    Pow2Grows(bits, 31);
    WrappedMultiple(bytes, Pow2(bits), Blocks(bytes, bits) * Pow2(bits));
  }

  /** More bytes never show as fewer blocks. */
  lemma CeilingMonotone(x: int, a: int, y: int, b: int, size: int)
    requires Ceiling(x, a, size) && Ceiling(y, b, size) && a <= b && size > 0
    ensures x <= y
  {
    Gap(x, y, size);
  }

  lemma Gap(x: int, y: int, size: int)
    requires size > 0
    ensures y < x ==> y * size + size <= x * size
  {
    assert y < x ==> (x - y - 1) * size >= 0;
  }

  /** `hsi_super2statvfs`, under the mount invariant on the block size. */
  method Super2Statvfs(bsize: u32, bits: nat, tbytes: u64, fbytes: u64, abytes: u64,
                       tfiles: u64, ffiles: u64, afiles: u64, flags: int, namlen: int)
    returns (err: int, st: StatVfs)
    requires bits <= 30
    ensures err == 0 <==> bits != 0 && bsize != 0 && namlen != 0
    ensures err == 0 ==> st.bsize == st.frsize == bsize && st.flag == flags && st.namemax == namlen
    ensures err == 0 ==> st.files == tfiles && st.ffree == ffiles && st.favail == afiles
    ensures err == 0 ==> (Ceiling(st.blocks, tbytes, Pow2(bits)) <==> tbytes <= TWO64 - Pow2(bits))
    ensures err == 0 ==> (Ceiling(st.bfree, fbytes, Pow2(bits)) <==> fbytes <= TWO64 - Pow2(bits))
    ensures err == 0 ==> (Ceiling(st.bavail, abytes, Pow2(bits)) <==> abytes <= TWO64 - Pow2(bits))
    ensures err == 0 && abytes <= fbytes <= tbytes <= TWO64 - Pow2(bits) ==> st.bavail <= st.bfree <= st.blocks
  {
    st := StatVfs(0, 0, 0, 0, 0, 0, 0, 0, 0, 0);
    if bits == 0 || bsize == 0 || namlen == 0 {
      return 1, st;
    }
    st := StatVfs(bsize, bsize, Blocks(tbytes, bits), Blocks(fbytes, bits), Blocks(abytes, bits),
                  tfiles, ffiles, afiles, flags, namlen);
    BlocksCeiling(tbytes, bits);
    BlocksCeiling(fbytes, bits);
    BlocksCeiling(abytes, bits);
    if abytes <= fbytes <= tbytes <= TWO64 - Pow2(bits) {
      CeilingMonotone(st.bavail, abytes, st.bfree, fbytes, Pow2(bits));
      CeilingMonotone(st.bfree, fbytes, st.blocks, tbytes, Pow2(bits));
    }
    err := 0;
  }
}
