/**
 `struct nfs_fh` of include/hsfs/hsi_nfs.h: a fixed buffer of which `size` bytes count.
 A handle means its counted bytes; what earlier handles left behind them does not matter.
 */
module FileHandle {
  import opened Basics

  datatype NfsFh = NfsFh(size: nat, data: seq<byte>)

  /** `NFS_MAXFHSIZE` is 128. */
  type Fh = h: NfsFh | h.size <= |h.data| == 128 witness NfsFh(0, Zeros(128))

  /** A handle as the protocol carries it: `NFS3_FHSIZE` is 64. */
  type WireFh = s: seq<byte> | |s| <= 64 witness []

  /** Zeroed memory. */
  const ZEROED: Fh := NfsFh(0, Zeros(128))

  function Bytes(h: Fh): (s: seq<byte>)
    ensures |s| <= 128
  {
    h.data[..h.size]
  }

  /** The handle whose counted bytes are `s`, over what `target` held. */
  function Over(target: Fh, s: seq<byte>): (h: Fh)
    requires |s| <= 128
    ensures Bytes(h) == s
  {
    NfsFh(|s|, s + target.data[|s|..])
  }

  /** `memcpy` to the start of a buffer. */
  method Copy(buffer: seq<byte>, s: seq<byte>) returns (r: seq<byte>)
    requires |s| <= |buffer|
    ensures r == s + buffer[|s|..]
  {
    r := buffer;
    for i := 0 to |s|
      invariant |r| == |buffer| && r[..i] == s[..i] && r[i..] == buffer[i..]
    {
      r := r[i := s[i]];
    }
    assert r == r[..|s|] + r[|s|..];
  }

  /** `nfs_copy_fh3` */
  method CopyFh3(target: Fh, source: seq<byte>) returns (r: Fh)
    requires |source| <= 128
    ensures Bytes(r) == source && r == Over(target, source)
  {
    var data := Copy(target.data, source);
    r := NfsFh(|source|, data);
  }

  /** `nfs_copy_fh` */
  method CopyFh(target: Fh, source: Fh) returns (r: Fh)
    ensures Bytes(r) == Bytes(source) && r == Over(target, Bytes(source))
  {
    var data := Copy(target.data, source.data[..source.size]);
    r := NfsFh(source.size, data);
  }

  /** `nfs_compare_fh`: zero exactly for equal handles. */
  method CompareFh(a: Fh, b: Fh) returns (r: int)
    ensures r == 0 <==> Bytes(a) == Bytes(b)
  {
    if a.size != b.size {
      return 1;
    }
    var i := 0;
    while i < a.size
      invariant i <= a.size && a.data[..i] == b.data[..i]
    {
      if a.data[i] != b.data[i] {
        assert Bytes(a)[i] != Bytes(b)[i];
        return 1;
      }
      assert a.data[..i + 1] == a.data[..i] + [a.data[i]] && b.data[..i + 1] == b.data[..i] + [b.data[i]];
      i := i + 1;
    }
    return 0;
  }

  /** Handles taken from two replies compare as equal exactly if the replies hold the same bytes, whatever the
      buffers held before. */
  method SameHandle(a: Fh, b: Fh, x: WireFh, y: WireFh) returns (same: bool)
    ensures same <==> x == y
  {
    var a' := CopyFh3(a, x);
    var b' := CopyFh3(b, y);
    var r := CompareFh(a', b');
    same := r == 0;
  }
}
