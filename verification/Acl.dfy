/** The POSIX ACL extended attribute, printed and parsed on a little-endian host (nfs3/hsi_acl3.c, include/acl.h). */
module Acl {
  import opened Basics

  /** A byte as a number. */
  type octet = x: int | 0 <= x < 256

  const USER_OBJ: u16 := 0x01
  const USER: u16 := 0x02
  const GROUP_OBJ: u16 := 0x04
  const GROUP: u16 := 0x08
  const MASK: u16 := 0x10
  const OTHER: u16 := 0x20

  const UNDEFINED_ID: u32 := 0xffff_ffff

  /** An entry; the tag is kept as its 16-bit pattern. */
  datatype Entry = Entry(tag: u16, perm: u16, id: u32)

  predicate ObjectTag(tag: u16) {
    tag == USER_OBJ || tag == GROUP_OBJ || tag == MASK || tag == OTHER
  }

  predicate ValidTag(tag: u16) {
    ObjectTag(tag) || tag == USER || tag == GROUP
  }

  /** What parsing makes of an entry. */
  function Norm(e: Entry): Entry {
    if ObjectTag(e.tag) then e.(id := UNDEFINED_ID) else e
  }

  ghost predicate ValidTags(l: seq<Entry>) {
    forall i :: 0 <= i < |l| ==> ValidTag(l[i].tag)
  }

  ghost predicate Normal(l: seq<Entry>) {
    forall i :: 0 <= i < |l| ==> Norm(l[i]) == l[i]
  }

  function NormAll(l: seq<Entry>): (r: seq<Entry>)
    ensures |r| == |l| && forall i :: 0 <= i < |l| ==> r[i] == Norm(l[i])
  {
    if l == [] then [] else NormAll(l[..|l| - 1]) + [Norm(l[|l| - 1])]
  }

  // ----- the layout -----

  function EntryBytes(e: Entry): (b: seq<octet>)
    ensures |b| == 8
  {
    [e.tag % 256, e.tag / 256, e.perm % 256, e.perm / 256,
     e.id % 0x1_0000 % 256, e.id % 0x1_0000 / 256, e.id / 0x1_0000 % 256, e.id / 0x1_0000 / 256]
  }

  function Half(a: octet, b: octet): (r: u16) {
    var x: int, y: int := a, b;
    x + 0x100 * y
  }

  function Whole(a: octet, b: octet, c: octet, d: octet): (r: u32) {
    var lo: int, hi: int := Half(a, b), Half(c, d);
    lo + 0x1_0000 * hi
  }

  lemma HalfDigits(a: octet, b: octet, n: u16)
    ensures Half(a, b) == n <==> a == n % 256 && b == n / 256
  {
  }

  lemma WholeDigits(a: octet, b: octet, c: octet, d: octet, n: u32)
    ensures Whole(a, b, c, d) == n <==>
            && a == n % 0x1_0000 % 256 && b == n % 0x1_0000 / 256
            && c == n / 0x1_0000 % 256 && d == n / 0x1_0000 / 256
  {
    HalfDigits(a, b, n % 0x1_0000);
    HalfDigits(c, d, n / 0x1_0000);
  }

  /** The entry whose eight bytes start at `o`. */
  function EntryAt(v: seq<octet>, o: nat): Entry
    requires o + 8 <= |v|
  {
    Entry(Half(v[o], v[o + 1]), Half(v[o + 2], v[o + 3]), Whole(v[o + 4], v[o + 5], v[o + 6], v[o + 7]))
  }

  lemma EntryRoundTrip(v: seq<octet>, o: nat, e: Entry)
    requires o + 8 <= |v|
    ensures v[o..o + 8] == EntryBytes(e) <==> EntryAt(v, o) == e
  {
    var w := v[o..o + 8];
    assert forall i :: 0 <= i < 8 ==> w[i] == v[o + i];
    HalfDigits(w[0], w[1], e.tag);
    HalfDigits(w[2], w[3], e.perm);
    WholeDigits(w[4], w[5], w[6], w[7], e.id);
    Eight(w, EntryBytes(e));
  }

  lemma Eight(v: seq<octet>, w: seq<octet>)
    requires |v| == |w| == 8
    ensures v == w <==> v[0] == w[0] && v[1] == w[1] && v[2] == w[2] && v[3] == w[3]
                        && v[4] == w[4] && v[5] == w[5] && v[6] == w[6] && v[7] == w[7]
  {
  }

  /** The attribute: version 2, then the entries. */
  function Encode(l: seq<Entry>): (v: seq<octet>)
    ensures |v| == 4 + 8 * |l| && v[..4] == [2, 0, 0, 0]
  {
    if l == [] then [2, 0, 0, 0] else Encode(l[..|l| - 1]) + EntryBytes(l[|l| - 1])
  }

  lemma {:induction false} EncodeNext(l: seq<Entry>, n: nat)
    requires n < |l|
    ensures Encode(l[..n + 1]) == Encode(l[..n]) + EntryBytes(l[n])
  {
    assert l[..n + 1][..n] == l[..n];
  }

  ghost predicate Versioned(v: seq<octet>) {
    |v| >= 4 && v[..4] == [2, 0, 0, 0]
  }

  /** The first `n` entries as they stand. */
  function Raw(v: seq<octet>, n: nat): (l: seq<Entry>)
    requires 4 + 8 * n <= |v|
    ensures |l| == n
  {
    if n == 0 then [] else Raw(v, n - 1) + [EntryAt(v, 4 + 8 * (n - 1))]
  }

  /** Bytes and entries stand for each other. */
  lemma {:induction false} EncodeRaw(v: seq<octet>, n: nat, l: seq<Entry>, end: nat)
    requires end == 4 + 8 * n && end <= |v| && Versioned(v) && |l| == n
    ensures Encode(l) == v[..end] <==> Raw(v, n) == l
  {
    if n > 0 {
      var m, front, last := end - 8, l[..n - 1], l[n - 1];
      EncodeRaw(v, n - 1, front, m);
      EntryRoundTrip(v, m, last);
      assert l == front + [last];
      SplitAt(Encode(front), EntryBytes(last), v, m, end);
    }
  }

  lemma SplitAt(a: seq<octet>, b: seq<octet>, v: seq<octet>, m: nat, end: nat)
    requires m <= end <= |v| && |a| == m && |b| == end - m
    ensures a + b == v[..end] <==> a == v[..m] && b == v[m..end]
  {
    assert v[..end] == v[..m] + v[m..end];
    if a + b == v[..end] {
      assert a == (a + b)[..m] && b == (a + b)[m..];
    }
  }

  // ----- parsing and printing undo each other -----

  /** A count converted to a 32-bit `int`. */
  function Int32(n: nat): (r: int)
    ensures r <= n && (n < 0x8000_0000 ==> r == n)
    ensures -0x8000_0000 <= r < 0x8000_0000 && (n - r) % 0x1_0000_0000 == 0
  {
    var m := n % 0x1_0000_0000;
    if m < 0x8000_0000 then m else m - 0x1_0000_0000
  }

  /** The ACL an attribute stands for, if any. */
  ghost function Decode(v: seq<octet>): (r: Option<seq<Entry>>) {
    if !Versioned(v) || (|v| - 4) % 8 != 0 then None
    else
      var count := Int32((|v| - 4) / 8);
      if count <= 0 || !ValidTags(Raw(v, count)) then None else Some(NormAll(Raw(v, count)))
  }

  lemma DecodeRaw(v: seq<octet>, n: nat)
    requires Versioned(v) && |v| == 4 + 8 * n && n < 0x8000_0000
    ensures Decode(v) == if n > 0 && ValidTags(Raw(v, n)) then Some(NormAll(Raw(v, n))) else None
  {
    assert (|v| - 4) / 8 == n;
  }

  /** Parsing what was printed, for every ACL; it gives the ACL back exactly if that is not empty, has valid tags
      only, and no ids on object entries. */
  lemma {:induction false} ParsePrinted(l: seq<Entry>)
    requires |l| < 0x8000_0000
    ensures Decode(Encode(l)) == if l != [] && ValidTags(l) then Some(NormAll(l)) else None
    ensures Decode(Encode(l)) == Some(l) <==> l != [] && ValidTags(l) && Normal(l)
  {
    var v := Encode(l);
    assert Raw(v, |l|) == l by {
      assert v[..|v|] == v;
      EncodeRaw(v, |l|, l, |v|);
    }
    DecodeRaw(v, |l|);
    NormalAll(l);
  }

  lemma {:induction false} NormalAll(l: seq<Entry>)
    ensures NormAll(l) == l <==> Normal(l)
  {
    if Normal(l) {
      assert forall i :: 0 <= i < |l| ==> NormAll(l)[i] == l[i];
    }
  }

  lemma {:induction false} NormTwice(l: seq<Entry>)
    ensures NormAll(NormAll(l)) == NormAll(l) && (ValidTags(l) ==> ValidTags(NormAll(l)))
  {
    NormalAll(NormAll(l));
  }

  /** Only a size of 4 + 8n bytes, n > 0, is accepted, however large. */
  lemma AcceptedSize(v: seq<octet>)
    requires Decode(v).Some?
    ensures exists n :: n > 0 && |v| == 4 + 8 * n
  {
    assert |v| == 4 + 8 * ((|v| - 4) / 8);
  }

  /** Printing what was parsed: only the ids of object entries can differ, and a second parse sees no difference. */
  lemma PrintParsed(v: seq<octet>)
    requires Decode(v).Some? && |v| < 0x4_0000_0000
    ensures var l := Decode(v).value;
            && |v| == 4 + 8 * |l|
            && v == Encode(Raw(v, |l|)) && l == NormAll(Raw(v, |l|)) && Decode(Encode(l)) == Some(l)
            && (Encode(l) == v <==> Normal(Raw(v, |l|)))
  {
    var n := (|v| - 4) / 8;
    var raw, l := Raw(v, n), Decode(v).value;
    assert v[..|v|] == v;
    EncodeRaw(v, n, raw, |v|);
    EncodeRaw(v, n, l, |v|);
    NormalAll(raw);
    NormTwice(raw);
    ParsePrinted(l);
  }

  // ----- byte by byte -----

  ghost function Num(v: seq<octet>, i: nat): int
    requires i < |v|
  {
    v[i]
  }

  /** Entry `k` of an attribute: tag, permissions and id, each with the low byte first. */
  ghost function TagOf(v: seq<octet>, k: nat): int
    requires 12 + 8 * k <= |v|
  {
    Num(v, 4 + 8 * k) + 256 * Num(v, 5 + 8 * k)
  }

  ghost function PermOf(v: seq<octet>, k: nat): int
    requires 12 + 8 * k <= |v|
  {
    Num(v, 6 + 8 * k) + 256 * Num(v, 7 + 8 * k)
  }

  ghost function IdOf(v: seq<octet>, k: nat): int
    requires 12 + 8 * k <= |v|
  {
    Num(v, 8 + 8 * k) + 0x100 * Num(v, 9 + 8 * k) + 0x1_0000 * Num(v, 10 + 8 * k) + 0x100_0000 * Num(v, 11 + 8 * k)
  }

  /** `v` is the attribute of the ACL: version 2 in four bytes, then eight bytes for each entry. */
  ghost predicate Attribute(v: seq<octet>, l: seq<Entry>) {
    && |v| == 4 + 8 * |l| && v[0] == 2 && v[1] == 0 && v[2] == 0 && v[3] == 0
    && forall k {:trigger l[k]} :: 0 <= k < |l| ==> TagOf(v, k) == l[k].tag && PermOf(v, k) == l[k].perm && IdOf(v, k) == l[k].id
  }

  /** An entry as it should be parsed from entry `k` of `v`: no id unless it names a user or a group. */
  ghost predicate Reads(v: seq<octet>, k: nat, e: Entry) {
    && 12 + 8 * k <= |v| && e.tag == TagOf(v, k) && e.perm == PermOf(v, k)
    && e.id == if TagOf(v, k) == 2 || TagOf(v, k) == 8 then IdOf(v, k) else 0xffff_ffff
  }

  ghost predicate GoodTag(t: int) {
    t == 1 || t == 2 || t == 4 || t == 8 || t == 16 || t == 32
  }

  lemma EntryAtMeans(v: seq<octet>, k: nat)
    requires 12 + 8 * k <= |v|
    ensures var e := EntryAt(v, 4 + 8 * k); e.tag == TagOf(v, k) && e.perm == PermOf(v, k) && e.id == IdOf(v, k)
  {
  }

  lemma EncodeMeans(l: seq<Entry>)
    ensures Attribute(Encode(l), l)
  {
    var v := Encode(l);
    assert v[..4][0] == 2 && v[..4][1] == 0 && v[..4][2] == 0 && v[..4][3] == 0;
    assert v[..|v|] == v;
    EncodeRaw(v, |l|, l, |v|);
    forall k | 0 <= k < |l| ensures TagOf(v, k) == l[k].tag && PermOf(v, k) == l[k].perm && IdOf(v, k) == l[k].id {
      RawIndex(v, |l|, k);
      EntryAtMeans(v, k);
    }
  }

  /** What is parsed, entry by entry, and exactly when anything is. */
  lemma DecodeMeans(v: seq<octet>)
    ensures Decode(v).Some? <==>
            && |v| >= 4 && v[0] == 2 && v[1] == 0 && v[2] == 0 && v[3] == 0 && (|v| - 4) % 8 == 0
            && var n := Int32((|v| - 4) / 8);
            n > 0 && forall k {:trigger TagOf(v, k)} :: 0 <= k < n ==> GoodTag(TagOf(v, k))
    ensures Decode(v).Some? ==>
              && |Decode(v).value| == Int32((|v| - 4) / 8)
              && forall k :: 0 <= k < |Decode(v).value| ==> Reads(v, k, Decode(v).value[k])
  {
    if |v| >= 4 {
      assert v[..4] == [v[0], v[1], v[2], v[3]];
      var n := Int32((|v| - 4) / 8);
      if (|v| - 4) % 8 == 0 && n > 0 {
        forall k | 0 <= k < n
          ensures Raw(v, n)[k] == EntryAt(v, 4 + 8 * k) && (ValidTag(Raw(v, n)[k].tag) <==> GoodTag(TagOf(v, k)))
          ensures GoodTag(TagOf(v, k)) ==> Reads(v, k, Norm(Raw(v, n)[k]))
        {
          RawIndex(v, n, k);
          EntryAtMeans(v, k);
        }
      }
    }
  }

  // ----- the code -----

  /** Writes one entry at `o`. */
  method PutEntry(buffer: array<octet>, o: nat, e: Entry)
    requires o + 8 <= buffer.Length
    modifies buffer
    ensures buffer[..o + 8] == old(buffer[..o]) + EntryBytes(e)
    ensures forall i :: o + 8 <= i < buffer.Length ==> buffer[i] == old(buffer[i])
  {
    var b := EntryBytes(e);
    forall i | 0 <= i < 8 {
      buffer[o + i] := b[i];
    }
    assert buffer[..o + 8] == buffer[..o] + buffer[o..o + 8];
  }

  /** The header and the loop of `posix_acl_to_xattr`. */
  method WriteEntries(acl: seq<Entry>, buffer: array<octet>)
    requires 4 + 8 * |acl| <= buffer.Length
    modifies buffer
    ensures buffer[..4 + 8 * |acl|] == Encode(acl)
    ensures forall i :: 4 + 8 * |acl| <= i < buffer.Length ==> buffer[i] == old(buffer[i])
  {
    buffer[0], buffer[1], buffer[2], buffer[3] := 2, 0, 0, 0;
    var entry := 4;
    for n := 0 to |acl|
      invariant entry == 4 + 8 * n && buffer[..entry] == Encode(acl[..n])
      invariant forall i :: entry <= i < buffer.Length ==> buffer[i] == old(buffer[i])
    {
      EncodeNext(acl, n);
      PutEntry(buffer, entry, acl[n]);
      entry := entry + 8;
    }
    assert acl[..|acl|] == acl;
  }

  /** `posix_acl_to_xattr` */
  method ToXattr(acl: seq<Entry>, buffer: array?<octet>, size: nat) returns (r: int)
    requires 4 + 8 * |acl| < 0x8000_0000 && (buffer != null ==> size <= buffer.Length)
    modifies buffer
    ensures buffer == null || 4 + 8 * |acl| <= size ==> r == |Encode(acl)| && r != ERANGE
    ensures buffer != null && 4 + 8 * |acl| > size ==> r == ERANGE && buffer[..] == old(buffer[..])
    ensures buffer != null && 4 + 8 * |acl| <= size ==> buffer[..r] == Encode(acl) && buffer[r..] == old(buffer[r..])
    ensures buffer != null && 4 + 8 * |acl| <= size ==> Attribute(buffer[..r], acl)
  {
    var realSize := 4 + 8 * |acl|;
    if buffer == null {
      return realSize;
    }
    if realSize > size {
      return ERANGE;
    }
    WriteEntries(acl, buffer);
    EncodeMeans(acl);
    r := realSize;
  }

  lemma {:induction false} RawIndex(v: seq<octet>, n: nat, k: nat)
    requires 4 + 8 * n <= |v| && k < n
    ensures Raw(v, n)[k] == EntryAt(v, 4 + 8 * k)
  {
    if k < n - 1 {
      RawIndex(v, n - 1, k);
    }
  }

  /** The switch on the tag. */
  method ParseEntry(e: Entry) returns (r: Option<Entry>)
    ensures r == if ValidTag(e.tag) then Some(Norm(e)) else None
  {
    if ObjectTag(e.tag) {
      return Some(e.(id := UNDEFINED_ID));
    } else if e.tag == USER || e.tag == GROUP {
      return Some(e);
    }
    return None;
  }

  /** The loop of `posix_acl_from_xattr`, into an array of its own. */
  method ParseEntries(value: array<octet>, count: nat) returns (r: Option<seq<Entry>>)
    requires 4 + 8 * count <= value.Length
    ensures r == if ValidTags(Raw(value[..], count)) then Some(NormAll(Raw(value[..], count))) else None
  {
    ghost var v := value[..];
    var acl := new Entry[count];
    for k := 0 to count
      invariant Parsed(v, acl[..k])
    {
      ghost var before := acl[..k];
      var e := EntryAt(value[..], 4 + 8 * k);
      BadEntry(v, count, k);
      var parsed := ParseEntry(e);
      if parsed.None? {
        return None;
      }
      acl[k] := parsed.value;
      NextEntry(v, before);
      assert acl[..k + 1] == before + [parsed.value];
    }
    assert acl[..count] == acl[..];
    r := Some(acl[..]);
  }

  /** `l` is what the first entries come to, all of them valid. */
  ghost predicate Parsed(v: seq<octet>, l: seq<Entry>) {
    4 + 8 * |l| <= |v| && l == NormAll(Raw(v, |l|)) && ValidTags(Raw(v, |l|))
  }

  lemma BadEntry(v: seq<octet>, n: nat, k: nat)
    requires 4 + 8 * n <= |v| && k < n
    ensures ValidTags(Raw(v, n)) ==> ValidTag(EntryAt(v, 4 + 8 * k).tag)
  {
    RawIndex(v, n, k);
  }

  lemma {:induction false} NextEntry(v: seq<octet>, l: seq<Entry>)
    requires Parsed(v, l) && 4 + 8 * |l| + 8 <= |v| && ValidTag(EntryAt(v, 4 + 8 * |l|).tag)
    ensures Parsed(v, l + [Norm(EntryAt(v, 4 + 8 * |l|))])
  {
    var k := |l|;
    assert Raw(v, k + 1)[..k] == Raw(v, k);
    assert Raw(v, k + 1)[k] == EntryAt(v, 4 + 8 * k);
  }

  /** `posix_acl_from_xattr`; `memory` says whether the ACL can be allocated. */
  method FromXattr(value: array?<octet>, memory: bool) returns (r: Option<seq<Entry>>)
    ensures r == if value == null || !memory then None else Decode(value[..])
    ensures r.Some? ==> forall k :: 0 <= k < |r.value| ==> Reads(value[..], k, r.value[k])
  {
    if value != null {
      DecodeMeans(value[..]);
    }
    if value == null || value.Length < 4 || value[..4] != [2, 0, 0, 0] {
      return None;
    }
    if (value.Length - 4) % 8 != 0 {
      return None;
    }
    var count := Int32((value.Length - 4) / 8);
    if count <= 0 || !memory {
      return None;
    }
    r := ParseEntries(value, count);
  }

  datatype XattrReply = Size(n: int) | Bytes(bytes: seq<octet>) | Error(errno: int)

  /** The end of `hsx_fuse_getxattr`; `noBuffer` says that `calloc` returned no buffer. A query for the size
      is answered with the size exactly if `calloc` returns none for zero bytes. */
  method GetXattr(acl: seq<Entry>, size: nat, noBuffer: bool) returns (reply: XattrReply)
    requires 4 + 8 * |acl| < 0x8000_0000
    ensures size == 0 ==> (reply == Size(|Encode(acl)|) <==> noBuffer)
    ensures size == 0 && !noBuffer ==> reply == Size(ERANGE)
    ensures size > 0 && noBuffer ==> reply == Error(ENOMEM)
    ensures size > 0 && !noBuffer ==> reply == if |Encode(acl)| <= size then Bytes(Encode(acl)) else Error(ERANGE)
    ensures reply.Bytes? ==> Attribute(reply.bytes, acl)
  {
    var buf: array?<octet> := null;
    if !noBuffer {
      buf := new octet[size](_ => 0);
    } else if size != 0 {
      return Error(ENOMEM);
    }
    var realSize := ToXattr(acl, buf, size);
    if size == 0 {
      return Size(realSize);
    }
    if realSize == ERANGE {
      return Error(ERANGE);
    }
    reply := Bytes(buf[..realSize]);
  }

  /** `posix_acl_from_mode`: an ACL that survives the codec and holds the nine permission bits. */
  function FromMode(mode: nat): (l: seq<Entry>)
    ensures |l| == 3 && ValidTags(l) && Normal(l)
    ensures l[0].tag == 0x01 && l[1].tag == 0x04 && l[2].tag == 0x20
    ensures forall i :: 0 <= i < 3 ==> 0 <= l[i].perm < 8 && l[i].id == 0xffff_ffff
    ensures 64 * l[0].perm + 8 * l[1].perm + l[2].perm == mode % 512
  {
    ModeBits(mode % 512);
    [Entry(USER_OBJ, mode % 512 / 64, UNDEFINED_ID), Entry(GROUP_OBJ, mode % 512 / 8 % 8, UNDEFINED_ID),
     Entry(OTHER, mode % 512 % 8, UNDEFINED_ID)]
  }

  lemma ModeBits(m: nat)
    requires m < 512
    ensures m / 64 < 8 && 64 * (m / 64) + 8 * (m / 8 % 8) + m % 8 == m
  {
    assert m / 8 / 8 == m / 64;
  }
}
