/**
 The FUSE operations on the hash tables themselves: each does to the tables what
 the step of the same name does to the plain-map cache.
 */
module Fuse {
  import opened Basics
  import opened HashTable
  import opened Attributes
  import opened CacheSpec
  import opened FileHandle
  import opened InodeCache
  import opened Packing
  import opened FuseSpec
  import opened FuseRuns

  lemma {:induction false} AllTaken(s: set<Ptr>, n: nat)
    requires forall p: Ptr :: p < n ==> p in s
    ensures |s| >= n
  {
    if n > 0 {
      AllTaken(s - {n - 1}, n - 1);
    }
  }

  /** `malloc`: any address not in use, or nothing when memory is exhausted. */
  method Malloc(inodes: map<Ptr, Inode>, mem: bool) returns (alloc: Option<Ptr>)
    ensures alloc.Some? <==> mem
    ensures alloc.Some? ==> alloc.value !in inodes
  {
    if !mem {
      return None;
    }
    assert exists p: Ptr :: p !in inodes by {
      if forall p: Ptr :: p in inodes {
        AllTaken(inodes.Keys, |inodes.Keys| + 1);
      }
    }
    var p: Ptr :| p !in inodes;
    return Some(p);
  }

  /** What every caller of `hsi_nfs_fhget` does: copy the handle from the reply, then get the inode. */
  method Fhget(sb: Super, fh: WireFh, fattr: FAttr, mem: bool) returns (r: Got, p: Ptr)
    requires sb.Valid() && Room(sb.cache, 1)
    modifies sb, sb.idTable, sb.fhTable
    ensures sb.Valid() && (sb.cache, r) == Get(old(sb.cache), fh, fattr, mem)
    ensures r.Got? ==> sb.Holds(p, r.ino)
    ensures PtrsKept(old(sb.inodes), old(sb.idTable.keyOf.Keys), sb.inodes, sb.idTable.keyOf.Keys)
  {
    RoomCanGet(sb.cache, fh, fattr);
    var nameFh := CopyFh3(ZEROED, fh);
    var alloc := Malloc(sb.inodes, mem);
    r, p := sb.FhGet(nameFh, fattr, alloc);
  }

  /** `hsx_fuse_lookup` */
  method LookupOp(sb: Super, parent: u64, reply: Reply) returns (out: Outcome)
    requires sb.Valid() && Room(sb.cache, 1)
    modifies sb, sb.idTable, sb.fhTable
    ensures sb.Valid() && (sb.cache, out) == LookupStep(old(sb.cache), parent, reply)
  {
    var dir := sb.Ilookup(parent);
    if dir.None? {
      return Error(ENOENT);
    }
    if reply.RpcError? {
      return Error(reply.errno);
    }
    var got, p := Fhget(sb, reply.fh, reply.fattr, reply.mem);
    if got.Failed? {
      return Error(got.errno);
    }
    RefInc(sb, p, got.ino);
    return Entry(got.ino);
  }

  /** `hsx_fuse_ref_inc` by one */
  method RefInc(sb: Super, p: Ptr, i: u64)
    requires sb.Valid() && sb.Holds(p, i)
    modifies sb`inodes, sb`cache
    ensures sb.Valid() && sb.Holds(p, i) && i in old(sb.cache).recs
    ensures sb.cache == SetRefs(old(sb.cache), i, Inc(old(sb.cache).recs[i].refs))
    ensures PtrsKept(old(sb.inodes), sb.idTable.keyOf.Keys, sb.inodes, sb.idTable.keyOf.Keys)
  {
    sb.HeldRec(p, i);
    sb.Modify(p, i, sb.inodes[p].(refs := Inc(sb.inodes[p].refs)));
  }

  /** `hsx_fuse_create`, `hsx_fuse_mkdir`, `hsx_fuse_mknod` and `hsx_fuse_symlink`. */
  method CreateOp(sb: Super, parent: u64, kind: Kind, reply: Reply) returns (out: Outcome)
    requires sb.Valid() && Room(sb.cache, 1)
    modifies sb, sb.idTable, sb.fhTable
    ensures sb.Valid() && (sb.cache, out) == CreateStep(old(sb.cache), parent, kind, reply)
  {
    var dir := sb.Ilookup(parent);
    if dir.None? {
      return if kind.File? || kind.Mkdir? then NoReply else Error(ENOENT);
    }
    ChangeOwner(sb, dir.value, parent, kind);
    if reply.RpcError? {
      return Error(reply.errno);
    }
    SetOwnerFacts(old(sb.cache), parent, kind);
    var got, p := Fhget(sb, reply.fh, reply.fattr, reply.mem);
    if got.Failed? {
      return Error(got.errno);
    }
    out := HandOut(sb, p, got.ino, kind);
  }

  /** The end of a create: the attributes of an exclusive one, then the exchange and its assertion. */
  method HandOut(sb: Super, p: Ptr, i: u64, kind: Kind) returns (out: Outcome)
    requires sb.Valid() && sb.Holds(p, i) && i in sb.cache.recs
    modifies sb`inodes, sb`cache
    ensures sb.Valid() && i in Adjusted(old(sb.cache), i, kind).recs
    ensures (sb.cache, out) ==
            if SetAttrError(kind) != 0 then (old(sb.cache), Error(SetAttrError(kind)))
            else var c := Adjusted(old(sb.cache), i, kind);
                 (SetRefs(c, i, 1), if c.recs[i].refs != 0 then Crash else Entry(i))
  {
    if kind.File? && kind.exclusive.Some? {
      if kind.exclusive.value.errno != 0 {
        return Error(kind.exclusive.value.errno);
      }
      var _ := sb.RefreshHeld(p, i, kind.exclusive.value.fattr);
    }
    var ref := RefXchg(sb, p, i, 1);
    return if ref != 0 then Crash else Entry(i);
  }

  method ChangeOwner(sb: Super, p: Ptr, i: u64, kind: Kind)
    requires sb.Valid() && sb.Holds(p, i)
    modifies sb`inodes, sb`cache
    ensures sb.Valid() && i in old(sb.cache).recs && sb.cache == SetOwner(old(sb.cache), i, kind)
  {
    sb.HeldRec(p, i);
    if kind.File? {
      var attrs := sb.inodes[p].attrs.(uid := kind.uid, gid := kind.gid);
      sb.Modify(p, i, sb.inodes[p].(attrs := attrs));
    }
  }

  /** `hsx_fuse_ref_xchg` */
  method RefXchg(sb: Super, p: Ptr, i: u64, val: u64) returns (ref: u64)
    requires sb.Valid() && sb.Holds(p, i)
    modifies sb`inodes, sb`cache
    ensures sb.Valid() && sb.Holds(p, i) && i in old(sb.cache).recs && ref == old(sb.cache).recs[i].refs
    ensures sb.cache == SetRefs(old(sb.cache), i, val)
  {
    sb.HeldRec(p, i);
    ref := sb.inodes[p].refs;
    sb.Modify(p, i, sb.inodes[p].(refs := val));
  }

  /** `hsfs_iput` with `generic_drop_inode` */
  method Iput(sb: Super, p: Ptr, i: u64)
    requires sb.Valid() && sb.Holds(p, i)
    modifies sb`inodes, sb`cache
    ensures sb.Valid() && sb.Holds(p, i) && i in old(sb.cache).recs
    ensures sb.cache == SetRec(old(sb.cache), i, Put(old(sb.cache).recs[i]))
    ensures PtrsKept(old(sb.inodes), sb.idTable.keyOf.Keys, sb.inodes, sb.idTable.keyOf.Keys)
  {
    sb.HeldRec(p, i);
    var inode := sb.inodes[p];
    inode := inode.(count := inode.count - 1);
    if inode.count == 0 {
      if inode.attrs.nlink != 0 {
        inode := inode.(freed := true);
      }
    }
    sb.Modify(p, i, inode);
  }

  /** `hsx_fuse_forget` with `hsx_fuse_ref_dec` */
  method ForgetOp(sb: Super, ino: u64, n: u64) returns (out: Outcome)
    requires sb.Valid()
    modifies sb`inodes, sb`cache
    ensures sb.Valid() && (sb.cache, out) == ForgetStep(old(sb.cache), ino, n)
  {
    var node := sb.Ilookup(ino);
    if node.None? {
      return Crash;
    }
    sb.HeldRec(node.value, ino);
    if n > sb.inodes[node.value].refs {
      return Crash;
    }
    RefDec(sb, node.value, ino, n);
    return Done;
  }

  /** The rest of `hsx_fuse_forget`: the count goes down, and at zero the inode is put. */
  method RefDec(sb: Super, p: Ptr, i: u64, n: u64)
    requires sb.Valid() && sb.Holds(p, i) && n <= sb.inodes[p].refs && i in sb.cache.recs && sb.cache.recs[i].refs == sb.inodes[p].refs
    modifies sb`inodes, sb`cache
    ensures sb.Valid() && sb.cache == ForgetStep(old(sb.cache), i, n).0
  {
    var rest := sb.inodes[p].refs - n;
    var _ := RefXchg(sb, p, i, rest);
    if rest == 0 {
      Iput(sb, p, i);
    }
  }

  /** `hsx_fuse_link`: the reply is filled in without counting it. */
  method LinkOp(sb: Super, ino: u64, parent: u64, errno: int, fattr: FAttr) returns (out: Outcome)
    requires sb.Valid()
    modifies sb`inodes, sb`cache
    ensures sb.Valid() && (sb.cache, out) == LinkStep(old(sb.cache), ino, parent, errno, fattr)
  {
    var dir := sb.Ilookup(parent);
    if dir.None? {
      return NoReply;
    }
    var node := sb.Ilookup(ino);
    if node.None? {
      return NoReply;
    }
    if errno != 0 {
      return Error(errno);
    }
    var status := RefreshDir(sb, node.value, ino, fattr);
    return if status != 0 then Error(status) else Entry(ino);
  }

  // ----- READDIRPLUS -----

  /** The contexts built so far: an inode for every entry. */
  ghost predicate AllHeld(m: map<Ptr, Inode>, linked: set<Ptr>, ptrs: seq<Ptr>, inos: seq<u64>) {
    && |ptrs| == |inos|
    && forall j :: 0 <= j < |ptrs| ==> ptrs[j] in linked && ptrs[j] in m && m[ptrs[j]].ino == inos[j]
  }

  lemma StillHeld(m: map<Ptr, Inode>, linked: set<Ptr>, m': map<Ptr, Inode>, linked': set<Ptr>, ptrs: seq<Ptr>, inos: seq<u64>)
    requires PtrsKept(m, linked, m', linked') && AllHeld(m, linked, ptrs, inos)
    ensures AllHeld(m', linked', ptrs, inos)
  {
  }

  /** One turn of the loop of `hsi_nfs3_readdir_plus`: the entry's handle must be there. */
  method GetEntry(sb: Super, e: PlusEntry) returns (got: Got, p: Ptr)
    requires sb.Valid() && Room(sb.cache, 1)
    modifies sb, sb.idTable, sb.fhTable
    ensures sb.Valid() && (sb.cache, got) == GetOne(old(sb.cache), e)
    ensures got.Got? ==> sb.Holds(p, got.ino)
    ensures PtrsKept(old(sb.inodes), old(sb.idTable.keyOf.Keys), sb.inodes, sb.idTable.keyOf.Keys)
  {
    if e.handle.None? {
      got, p := Failed(ENOENT), 0;
    } else {
      got, p := Fhget(sb, e.handle.value, e.fattr, e.mem);
    }
  }

  /** One turn of that loop, with the contexts built so far. */
  method EntryTurn(sb: Super, e: PlusEntry, ptrs: seq<Ptr>, inos: seq<u64>) returns (ptrs': seq<Ptr>, inos': seq<u64>, got: Got)
    requires sb.Valid() && Room(sb.cache, 1) && AllHeld(sb.inodes, sb.idTable.keyOf.Keys, ptrs, inos)
    modifies sb, sb.idTable, sb.fhTable
    ensures sb.Valid() && (sb.cache, got) == GetOne(old(sb.cache), e)
    ensures inos' == (if got.Got? then inos + [got.ino] else inos) && AllHeld(sb.inodes, sb.idTable.keyOf.Keys, ptrs', inos')
  {
    ptrs', inos' := ptrs, inos;
    var p;
    got, p := GetEntry(sb, e);
    StillHeld(old(sb.inodes), old(sb.idTable.keyOf.Keys), sb.inodes, sb.idTable.keyOf.Keys, ptrs, inos);
    if got.Got? {
      ptrs', inos' := ptrs + [p], inos + [got.ino];
    }
  }

  lemma GetAllNext(c: Cache, es: seq<PlusEntry>, k: nat)
    requires Inv(c) && Room(c, |es|) && k < |es| && GetAll(c, es[..k]).2.Got?
    ensures var (c1, inos, _) := GetAll(c, es[..k]);
            var (c2, got) := GetOne(c1, es[k]);
            GetAll(c, es[..k + 1]) == (c2, if got.Got? then inos + [got.ino] else inos, got)
  {
    assert es[..k + 1][..k] == es[..k] && es[..k + 1][k] == es[k];
  }

  /** The loop of `hsi_nfs3_readdir_plus` */
  method GetEntries(sb: Super, es: seq<PlusEntry>) returns (ptrs: seq<Ptr>, inos: seq<u64>, last: Got)
    requires sb.Valid() && Room(sb.cache, |es|)
    modifies sb, sb.idTable, sb.fhTable
    ensures sb.Valid() && (sb.cache, inos, last) == GetAll(old(sb.cache), es)
    ensures AllHeld(sb.inodes, sb.idTable.keyOf.Keys, ptrs, inos)
  {
    ptrs, inos, last := [], [], Got(0);
    var k := 0;
    ghost var c := sb.cache;
    while k < |es| && last.Got?
      invariant k <= |es| && sb.Valid()
      invariant (sb.cache, inos, last) == GetAll(c, es[..k])
      invariant AllHeld(sb.inodes, sb.idTable.keyOf.Keys, ptrs, inos)
    {
      GetAllNext(c, es, k);
      ptrs, inos, last := EntryTurn(sb, es[k], ptrs, inos);
      k := k + 1;
    }
    if last.Failed? {
      GetAllStops(c, es, k);
    } else {
      assert es[..k] == es;
    }
  }

  /** `__free_ctx` of nfs3/hsi_nfs3_readdir.c */
  method PutEntries(sb: Super, ptrs: seq<Ptr>, inos: seq<u64>)
    requires sb.Valid() && AllHeld(sb.inodes, sb.idTable.keyOf.Keys, ptrs, inos)
    requires forall i :: i in inos ==> i in sb.cache.recs
    modifies sb`inodes, sb`cache
    ensures sb.Valid() && sb.cache == PutAll(old(sb.cache), inos)
  {
    ghost var c := sb.cache;
    for k := 0 to |ptrs|
      invariant sb.Valid() && AllHeld(sb.inodes, sb.idTable.keyOf.Keys, ptrs, inos)
      invariant (forall i :: i in inos[..k] ==> i in c.recs) && sb.cache == PutAll(c, inos[..k])
    {
      ghost var m := sb.inodes;
      Iput(sb, ptrs[k], inos[k]);
      StillHeld(m, sb.idTable.keyOf.Keys, sb.inodes, sb.idTable.keyOf.Keys, ptrs, inos);
      assert inos[..k + 1][..k] == inos[..k];
    }
    assert inos[..|ptrs|] == inos;
  }

  /** One packed entry: a reference to its inode. */
  method PackTurn(sb: Super, ptrs: seq<Ptr>, inos: seq<u64>, k: nat)
    requires sb.Valid() && AllHeld(sb.inodes, sb.idTable.keyOf.Keys, ptrs, inos) && k < |ptrs|
    modifies sb`inodes, sb`cache
    ensures sb.Valid() && AllHeld(sb.inodes, sb.idTable.keyOf.Keys, ptrs, inos) && inos[k] in old(sb.cache).recs
    ensures sb.cache == SetRefs(old(sb.cache), inos[k], Inc(old(sb.cache).recs[inos[k]].refs))
  {
    RefInc(sb, ptrs[k], inos[k]);
    StillHeld(old(sb.inodes), sb.idTable.keyOf.Keys, sb.inodes, sb.idTable.keyOf.Keys, ptrs, inos);
  }

  lemma AddRefsNext(c: Cache, inos: seq<u64>, k: nat)
    requires k < |inos| && forall i :: i in inos ==> i in c.recs
    ensures (forall i :: i in inos[..k] ==> i in c.recs) && (forall i :: i in inos[..k + 1] ==> i in c.recs)
    ensures var c1 := AddRefs(c, inos[..k]); AddRefs(c, inos[..k + 1]) == SetRefs(c1, inos[k], Inc(c1.recs[inos[k]].refs))
  {
    assert inos[..k + 1][..k] == inos[..k] && inos[..k + 1][k] == inos[k];
  }

  lemma FitsNext(sizes: seq<nat>, k: nat, room: nat)
    requires k < |sizes| && sizes[k] < room
    ensures Fits(sizes[k..], room) == 1 + Fits(sizes[k + 1..], room - sizes[k])
  {
    assert sizes[k..][1..] == sizes[k + 1..];
  }

  /** The packing loop of `hsx_fuse_readdir_plus`: a reference for every entry that gets into the reply. */
  method PackPlus(sb: Super, es: seq<PlusEntry>, ptrs: seq<Ptr>, inos: seq<u64>, size: nat) returns (count: nat)
    requires sb.Valid() && AllHeld(sb.inodes, sb.idTable.keyOf.Keys, ptrs, inos) && |inos| == |es|
    requires forall i :: i in inos ==> i in sb.cache.recs
    modifies sb`inodes, sb`cache
    ensures count == Fits(Sizes(es), size)
    ensures sb.Valid() && sb.cache == AddRefs(old(sb.cache), inos[..count])
  {
    ghost var c := sb.cache;
    ghost var sizes := Sizes(es);
    var len := 0;
    count := 0;
    assert sizes[0..] == sizes;
    while count < |es|
      invariant count <= |es| && len <= size
      invariant Fits(sizes, size) == count + Fits(sizes[count..], size - len)
      invariant sb.Valid() && AllHeld(sb.inodes, sb.idTable.keyOf.Keys, ptrs, inos)
      invariant (forall i :: i in inos[..count] ==> i in c.recs) && sb.cache == AddRefs(c, inos[..count])
    {
      var res := es[count].esize;
      if res >= size - len {
        break;
      }
      PackTurn(sb, ptrs, inos, count);
      AddRefsNext(c, inos, count);
      FitsNext(sizes, count, size - len);
      len := len + res;
      count := count + 1;
    }
  }

  /** `hsx_fuse_readdir_plus` with `hsi_nfs3_readdir_plus` */
  method PlusOp(sb: Super, parent: u64, size: nat, plus: PlusReply) returns (out: Outcome)
    requires sb.Valid() && (plus.Plus? ==> Room(sb.cache, |plus.entries|))
    modifies sb, sb.idTable, sb.fhTable
    ensures sb.Valid() && (sb.cache, out) == PlusStep(old(sb.cache), parent, size, plus)
  {
    var dir := sb.Ilookup(parent);
    if dir.None? {
      return Crash;
    }
    if plus.PlusError? {
      return Error(plus.errno);
    }
    var status := RefreshDir(sb, dir.value, parent, plus.dir);
    if status != 0 {
      return Error(status);
    }
    RefreshFacts(old(sb.cache), parent, plus.dir);
    out := PlusReplyOp(sb, size, plus);
  }

  /** `nfs_refresh_inode` of a linked inode */
  method RefreshDir(sb: Super, p: Ptr, i: u64, fattr: FAttr) returns (status: int)
    requires sb.Valid() && sb.Holds(p, i)
    modifies sb`inodes, sb`cache
    ensures sb.Valid() && i in old(sb.cache).recs
    ensures var r := old(sb.cache).recs[i]; status == Refresh(r.key.fileid, r.attrs, fattr).1
    ensures sb.cache == if status != 0 then old(sb.cache) else SetRec(old(sb.cache), i, Refreshed(old(sb.cache).recs[i], fattr))
  {
    status := sb.RefreshHeld(p, i, fattr);
    assert status != 0 ==> sb.cache.recs == old(sb.cache).recs;
  }

  /** Entries to inodes, inodes to a packed reply. */
  method PlusReplyOp(sb: Super, size: nat, plus: PlusReply) returns (out: Outcome)
    requires sb.Valid() && plus.Plus? && Room(sb.cache, |plus.entries|)
    modifies sb, sb.idTable, sb.fhTable
    ensures sb.Valid() && (sb.cache, out) == ReplyStep(old(sb.cache), size, plus.entries, plus.buf)
  {
    var ptrs, inos, last := GetEntries(sb, plus.entries);
    if last.Failed? {
      PutEntries(sb, ptrs, inos);
      return Error(last.errno);
    }
    if !plus.buf {
      return Error(ENOMEM);
    }
    var count := PackPlus(sb, plus.entries, ptrs, inos, size);
    return Listing(ShownOf(plus.entries, inos[..count]));
  }

  // ----- whole runs -----

  /** `hsi_fill_super` makes the root inode; `hsx_fuse_init` gives it its reference. */
  method Mount(fh: WireFh, fattr: FAttr) returns (sb: Super)
    requires fattr.valid && fattr.nlink != 0
    ensures sb.Valid() && fresh(sb) && fresh(sb.idTable) && fresh(sb.fhTable)
    ensures sb.cache == Mounted(fh, fattr).cache
  {
    sb := new Super();
    assert |sb.cache.recs| == 0;
    var root, p := Fhget(sb, fh, fattr, true);
    GetFacts(EMPTY, fh, fattr, true);
    var ref := RefXchg(sb, p, root.ino, 1);
    assert root.ino == 1 && ref == 0;
  }

  method StepOp(sb: Super, op: Op) returns (out: Outcome)
    requires sb.Valid() && Room(sb.cache, Need(op))
    modifies sb, sb.idTable, sb.fhTable
    ensures sb.Valid() && (sb.cache, out) == Step(old(sb.cache), op)
  {
    match op
    case Lookup(parent, reply) => out := LookupOp(sb, parent, reply);
    case Create(parent, kind, reply) => out := CreateOp(sb, parent, kind, reply);
    case ReaddirPlus(parent, size, plus) => out := PlusOp(sb, parent, size, plus);
    case Forget(ino, n) => out := ForgetOp(sb, ino, n);
    case Link(ino, parent, errno, fattr) => out := LinkOp(sb, ino, parent, errno, fattr);
  }

  /** The event loop: whatever the requests, the tables go through the run of the plain-map cache. */
  method Serve(sb: Super, ops: seq<Op>) returns (outs: seq<Outcome>)
    requires sb.Valid() && Room(sb.cache, NeedAll(ops))
    modifies sb, sb.idTable, sb.fhTable
    ensures sb.Valid()
    ensures var w := Run(World(old(sb.cache), [], false), ops);
            sb.cache == w.cache && |outs| == |w.trace| && forall k :: 0 <= k < |outs| ==> outs[k] == w.trace[k].out
  {
    outs := [];
    var k, crashed := 0, false;
    ghost var w0 := World(sb.cache, [], false);
    ghost var w := w0;
    while k < |ops| && !crashed
      invariant k <= |ops| && sb.Valid() && NeedAll(ops[..k]) <= NeedAll(ops)
      invariant w == Run(w0, ops[..k]) && sb.cache == w.cache && crashed == w.crashed
      invariant |outs| == |w.trace| && forall j :: 0 <= j < |outs| ==> outs[j] == w.trace[j].out
    {
      assert ops[..k + 1][..k] == ops[..k] && ops[..k + 1][k] == ops[k];
      NeedPrefix(ops, k + 1);
      var out := StepOp(sb, ops[k]);
      w := Next(w, ops[k]);
      outs, crashed, k := outs + [out], out == Crash, k + 1;
    }
    if crashed {
      CrashedStays(w0, ops, k);
    } else {
      assert ops[..k] == ops;
    }
  }

  lemma {:induction false} NeedPrefix(ops: seq<Op>, k: nat)
    requires k <= |ops|
    ensures NeedAll(ops[..k]) <= NeedAll(ops)
  {
    if k < |ops| {
      assert ops[..|ops| - 1][..k] == ops[..k];
      NeedPrefix(ops[..|ops| - 1], k);
    } else {
      assert ops[..k] == ops;
    }
  }

  lemma {:induction false} CrashedStays(w: World, ops: seq<Op>, k: nat)
    requires Inv(w.cache) && Room(w.cache, NeedAll(ops)) && k <= |ops| && NeedAll(ops[..k]) <= NeedAll(ops)
    requires Run(w, ops[..k]).crashed
    ensures Run(w, ops) == Run(w, ops[..k])
  {
    if k < |ops| {
      assert ops[..|ops| - 1][..k] == ops[..k];
      NeedPrefix(ops[..|ops| - 1], k);
      CrashedStays(w, ops[..|ops| - 1], k);
    } else {
      assert ops[..k] == ops;
    }
  }
}
