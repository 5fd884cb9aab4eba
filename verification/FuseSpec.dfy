/**
 The FUSE operations that hand out and take back references, as steps on the
 plain-map cache.
 */
module FuseSpec {
  import opened Basics
  import opened Attributes
  import opened CacheSpec
  import opened FileHandle
  import opened Packing

  /** What the server answered to a call that returns one object; `mem` is whether memory sufficed. */
  datatype Reply = RpcError(errno: int) | Object(fh: WireFh, fattr: FAttr, mem: bool)

  /** One entry of a READDIRPLUS reply; `esize` is the size of its encoding for the kernel. */
  datatype PlusEntry = PlusEntry(name: string, cookie: u64, handle: Option<WireFh>, fattr: FAttr, mem: bool, esize: nat)

  datatype PlusReply = PlusError(errno: int) | Plus(dir: FAttr, entries: seq<PlusEntry>, buf: bool)

  /** The SETATTR that follows an exclusive create: its error number, or the attributes it returned. */
  datatype SetAttr = SetAttr(errno: int, fattr: FAttr)

  /** The requests that make an object. Create takes over the caller's user and group. */
  datatype Kind = File(uid: nat, gid: nat, exclusive: Option<SetAttr>) | Mkdir | Mknod | Symlink

  /** A request of the kernel together with what the server answers. */
  datatype Op =
    | Lookup(parent: u64, reply: Reply)
    | Create(parent: u64, kind: Kind, reply: Reply)
    | ReaddirPlus(parent: u64, size: nat, plus: PlusReply)
    | Forget(ino: u64, n: u64)
    | Link(ino: u64, parent: u64, errno: int, fattr: FAttr)

  datatype Shown = Shown(name: string, ino: u64, off: u64)

  /** What the kernel gets back; `NoReply` is a request that is never answered, `Crash` a failed assertion. */
  datatype Outcome = Entry(ino: u64) | Error(errno: int) | Listing(shown: seq<Shown>) | Done | NoReply | Crash

  // ----- steps -----

  /** There are at least `n` free numbers above 1. */
  ghost predicate Room(c: Cache, n: nat) {
    |c.recs| + n <= 0xffff_ffff_ffff_fffd
  }

  lemma RoomCanGet(c: Cache, fh: seq<byte>, f: FAttr)
    requires Room(c, 1)
    ensures CanGet(c, fh, f)
  {
    assert |c.recs| == |c.recs.Keys|;
    FewTakenHasFree(c.recs.Keys);
  }

  ghost function Get(c: Cache, fh: seq<byte>, f: FAttr, mem: bool): (r: (Cache, Got))
    requires Inv(c) && Room(c, 1)
    ensures Inv(r.0) && |r.0.recs| <= |c.recs| + 1
  {
    RoomCanGet(c, fh, f);
    FhGetKeepsInv(c, fh, f, mem);
    FhGet(c, fh, f, mem)
  }

  /** `hsx_fuse_ref_inc` by one: the count is a 64-bit word. */
  function Inc(refs: u64): u64 {
    if refs == 0xffff_ffff_ffff_ffff then 0 else refs + 1
  }

  function SetRefs(c: Cache, i: u64, refs: u64): Cache
    requires i in c.recs
  {
    c.(recs := c.recs[i := c.recs[i].(refs := refs)])
  }

  lemma GetFacts(c: Cache, fh: seq<byte>, f: FAttr, mem: bool)
    requires Inv(c) && Room(c, 1)
    ensures var r := Get(c, fh, f, mem);
            && Inv(r.0) && |r.0.recs| <= |c.recs| + 1 && Later(c, r.0)
            && (r.1.Got? ==> r.1.ino in r.0.recs && r.0.recs[r.1.ino].key == Key(f.fileid, fh))
            && forall i :: RefsOf(r.0, i) == RefsOf(c, i)
  {
    RoomCanGet(c, fh, f);
    FhGetKeepsInv(c, fh, f, mem);
    if Key(f.fileid, fh) in c.index { assert GoodKey(c, Key(f.fileid, fh)); }
  }

  /** Records are never dropped, and an inode keeps its key and its file type. */
  ghost predicate Kept(c: Cache, c': Cache, i: u64)
    requires i in c.recs
  {
    && i in c'.recs && c'.recs[i].key == c.recs[i].key
    && FileType(c'.recs[i].attrs.mode) == FileType(c.recs[i].attrs.mode)
  }

  ghost predicate Later(c: Cache, c': Cache) {
    forall i {:trigger Kept(c, c', i)} :: i in c.recs ==> Kept(c, c', i)
  }

  lemma LaterTrans(a: Cache, b: Cache, c: Cache)
    requires Later(a, b) && Later(b, c)
    ensures Later(a, c)
  {
    forall i | i in a.recs ensures Kept(a, c, i) {
      assert Kept(a, b, i) && Kept(b, c, i);
    }
  }

  function RefsOf(c: Cache, i: u64): u64 {
    if i in c.recs then c.recs[i].refs else 0
  }

  ghost function LookupStep(c: Cache, parent: u64, reply: Reply): (Cache, Outcome)
    requires Inv(c) && Room(c, 1)
  {
    if parent !in c.recs then (c, Error(ENOENT))
    else match reply
      case RpcError(e) => (c, Error(e))
      case Object(fh, f, mem) =>
        GetFacts(c, fh, f, mem);
        var (c1, got) := Get(c, fh, f, mem);
        match got
        case Failed(e) => (c1, Error(e))
        case Got(i) => (SetRefs(c1, i, Inc(c1.recs[i].refs)), Entry(i))
  }

  function SetOwner(c: Cache, i: u64, kind: Kind): Cache
    requires i in c.recs
  {
    if !kind.File? then c else
      c.(recs := c.recs[i := c.recs[i].(attrs := c.recs[i].attrs.(uid := kind.uid, gid := kind.gid))])
  }

  lemma SetOwnerFacts(c: Cache, i: u64, kind: Kind)
    requires Inv(c) && i in c.recs
    ensures var c' := SetOwner(c, i, kind);
            Inv(c') && Later(c, c') && |c'.recs| == |c.recs| && forall j :: RefsOf(c', j) == RefsOf(c, j)
  {
    assert GoodRec(c, i);
    if kind.File? { SetKeepsInv(c, i, SetOwner(c, i, kind).recs[i]); }
    assert SetOwner(c, i, kind).recs.Keys == c.recs.Keys;
    assert |c.recs.Keys| == |c.recs| && |SetOwner(c, i, kind).recs.Keys| == |SetOwner(c, i, kind).recs|;
  }

  /** The error of the SETATTR that follows an exclusive create, zero if there is none. */
  function SetAttrError(kind: Kind): int {
    if kind.File? && kind.exclusive.Some? then kind.exclusive.value.errno else 0
  }

  /** The new inode after that SETATTR; whether the refresh is refused does not matter. */
  function Adjusted(c: Cache, i: u64, kind: Kind): Cache
    requires i in c.recs
  {
    if kind.File? && kind.exclusive.Some? && kind.exclusive.value.errno == 0
    then SetRec(c, i, Refreshed(c.recs[i], kind.exclusive.value.fattr)) else c
  }

  lemma AdjustedFacts(c: Cache, i: u64, kind: Kind)
    requires Inv(c) && i in c.recs
    ensures var c' := Adjusted(c, i, kind);
            && Inv(c') && Later(c, c') && |c'.recs| == |c.recs| && i in c'.recs
            && forall j :: RefsOf(c', j) == RefsOf(c, j)
  {
    if kind.File? && kind.exclusive.Some? { RefreshFacts(c, i, kind.exclusive.value.fattr); }
  }

  ghost function CreateStep(c: Cache, parent: u64, kind: Kind, reply: Reply): (Cache, Outcome)
    requires Inv(c) && Room(c, 1)
  {
    if parent !in c.recs then (c, if kind.File? || kind.Mkdir? then NoReply else Error(ENOENT))
    else
      SetOwnerFacts(c, parent, kind);
      var c0 := SetOwner(c, parent, kind);
      match reply
      case RpcError(e) => (c0, Error(e))
      case Object(fh, f, mem) =>
        GetFacts(c0, fh, f, mem);
        var (c1, got) := Get(c0, fh, f, mem);
        match got
        case Failed(e) => (c1, Error(e))
        case Got(i) =>
          if SetAttrError(kind) != 0 then (c1, Error(SetAttrError(kind)))
          else
            AdjustedFacts(c1, i, kind);
            var c2 := Adjusted(c1, i, kind);
            (SetRefs(c2, i, 1), if c2.recs[i].refs != 0 then Crash else Entry(i))
  }

  ghost function ForgetStep(c: Cache, ino: u64, n: u64): (Cache, Outcome) {
    if ino !in c.recs || n > c.recs[ino].refs then (c, Crash)
    else
      var c1 := SetRefs(c, ino, c.recs[ino].refs - n);
      (if c.recs[ino].refs == n then c1.(recs := c1.recs[ino := Put(c1.recs[ino])]) else c1, Done)
  }

  /** The inode is refreshed and the reply names it, but nothing is counted. */
  function LinkStep(c: Cache, ino: u64, parent: u64, errno: int, fattr: FAttr): (Cache, Outcome) {
    if parent !in c.recs || ino !in c.recs then (c, NoReply)
    else if errno != 0 then (c, Error(errno))
    else
      var status := Refresh(c.recs[ino].key.fileid, c.recs[ino].attrs, fattr).1;
      if status != 0 then (c, Error(status)) else (SetRec(c, ino, Refreshed(c.recs[ino], fattr)), Entry(ino))
  }

  // ----- READDIRPLUS -----

  /** What one entry yields: its inode's number, or an error. */
  ghost function GetOne(c: Cache, e: PlusEntry): (r: (Cache, Got))
    requires Inv(c) && Room(c, 1)
    ensures Inv(r.0) && |r.0.recs| <= |c.recs| + 1 && Later(c, r.0) && (forall i :: RefsOf(r.0, i) == RefsOf(c, i))
    ensures r.1.Got? ==> r.1.ino in r.0.recs
  {
    if e.handle.None? then (c, Failed(ENOENT))
    else
      GetFacts(c, e.handle.value, e.fattr, e.mem);
      Get(c, e.handle.value, e.fattr, e.mem)
  }

  /** The loop of `hsi_nfs3_readdir_plus`: an inode for every entry, until one fails. */
  ghost function GetAll(c: Cache, es: seq<PlusEntry>): (r: (Cache, seq<u64>, Got))
    requires Inv(c) && Room(c, |es|)
    ensures Inv(r.0) && |r.0.recs| <= |c.recs| + |es| && Later(c, r.0)
    ensures (forall i :: i in r.1 ==> i in r.0.recs) && |r.1| <= |es| && (r.2.Got? ==> |r.1| == |es|)
    ensures forall i :: RefsOf(r.0, i) == RefsOf(c, i)
  {
    if es == [] then (c, [], Got(0))
    else
      var (c1, inos, last) := GetAll(c, es[..|es| - 1]);
      if last.Failed? then (c1, inos, last)
      else
        var (c2, got) := GetOne(c1, es[|es| - 1]);
        LaterTrans(c, c1, c2);
        assert forall i :: i in inos ==> Kept(c1, c2, i);
        (c2, if got.Got? then inos + [got.ino] else inos, got)
  }

  /** Entries after a failure are not looked at. */
  lemma {:induction false} GetAllStops(c: Cache, es: seq<PlusEntry>, k: nat)
    requires Inv(c) && Room(c, |es|) && k <= |es| && GetAll(c, es[..k]).2.Failed?
    ensures GetAll(c, es) == GetAll(c, es[..k])
  {
    if k < |es| {
      assert es[..|es| - 1][..k] == es[..k];
      GetAllStops(c, es[..|es| - 1], k);
    } else {
      assert es[..k] == es;
    }
  }

  /** `__free_ctx` after a failure: every inode obtained so far is put. */
  function PutAll(c: Cache, inos: seq<u64>): (c': Cache)
    requires forall i :: i in inos ==> i in c.recs
    ensures c'.recs.Keys == c.recs.Keys
  {
    if inos == [] then c
    else
      var i := inos[|inos| - 1];
      var c1 := PutAll(c, inos[..|inos| - 1]);
      c1.(recs := c1.recs[i := Put(c1.recs[i])])
  }

  /** One reference for every entry in the reply. */
  function AddRefs(c: Cache, inos: seq<u64>): (c': Cache)
    requires forall i :: i in inos ==> i in c.recs
    ensures c'.recs.Keys == c.recs.Keys
  {
    if inos == [] then c
    else
      var i := inos[|inos| - 1];
      var c1 := AddRefs(c, inos[..|inos| - 1]);
      SetRefs(c1, i, Inc(c1.recs[i].refs))
  }

  function Sizes(es: seq<PlusEntry>): seq<nat> {
    seq(|es|, j requires 0 <= j < |es| => es[j].esize)
  }

  function ShownOf(es: seq<PlusEntry>, inos: seq<u64>): (r: seq<Shown>)
    requires |inos| <= |es|
    ensures |r| == |inos|
  {
    seq(|inos|, j requires 0 <= j < |inos| => Shown(CopyName(es[j].name), inos[j], es[j].cookie))
  }

  /** The reply to the kernel, once the server's entries are there. */
  ghost function ReplyStep(c: Cache, size: nat, es: seq<PlusEntry>, buf: bool): (Cache, Outcome)
    requires Inv(c) && Room(c, |es|)
  {
    var (c1, inos, last) := GetAll(c, es);
    if last.Failed? then (PutAll(c1, inos), Error(last.errno))
    else if !buf then (c1, Error(ENOMEM))
    else
      var k := Fits(Sizes(es), size);
      (AddRefs(c1, inos[..k]), Listing(ShownOf(es, inos[..k])))
  }

  ghost function PlusStep(c: Cache, parent: u64, size: nat, plus: PlusReply): (Cache, Outcome)
    requires Inv(c) && (plus.Plus? ==> Room(c, |plus.entries|))
  {
    if parent !in c.recs then (c, Crash)
    else match plus
      case PlusError(e) => (c, Error(e))
      case Plus(dir, es, buf) =>
        var (_, status) := Refresh(c.recs[parent].key.fileid, c.recs[parent].attrs, dir);
        if status != 0 then (c, Error(status))
        else
          RefreshFacts(c, parent, dir);
          ReplyStep(SetRec(c, parent, Refreshed(c.recs[parent], dir)), size, es, buf)
  }

  function SetRec(c: Cache, i: u64, r: Rec): Cache {
    c.(recs := c.recs[i := r])
  }

  lemma RefreshFacts(c: Cache, i: u64, f: FAttr)
    requires Inv(c) && i in c.recs
    ensures var c' := SetRec(c, i, Refreshed(c.recs[i], f));
            Inv(c') && Later(c, c') && |c'.recs| == |c.recs| && forall j :: RefsOf(c', j) == RefsOf(c, j)
  {
    assert GoodRec(c, i);
    SetKeepsInv(c, i, Refreshed(c.recs[i], f));
    var c' := SetRec(c, i, Refreshed(c.recs[i], f));
    assert c'.recs.Keys == c.recs.Keys && |c.recs.Keys| == |c.recs| && |c'.recs.Keys| == |c'.recs|;
  }
}
