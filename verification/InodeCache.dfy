/**
 The inode cache of lib/hsfs_inode.c and nfs_common/hsi_nfs_inode.c: inodes in
 memory, linked into two hash tables, one by local number and one by fileid.
 `Super.Abs()` is the plain-map cache the tables stand for.
 */
module InodeCache {
  import opened Basics
  import opened Hash
  import opened HashTable
  import opened Attributes
  import opened CacheSpec
  import opened FileHandle

  /** `struct nfs_inode`; `refs` is `private`, `count` is `i_count`, `isNew` is `I_NEW` in `i_state`. */
  datatype Inode = Inode(ino: u64, fileid: u64, fh: Fh, attrs: Attrs, refs: u64, count: int,
                         isNew: bool, stale: bool, freed: bool)

  /** `nfs_alloc_inode` and `inode_init_always`: zeroed memory, then the initial fields. */
  const BLANK := Inode(0, 0, ZEROED,
                       Attrs(0, 1, 0, 0, 0, 0, Time(0, 0), Time(0, 0), Time(0, 0)), 0, 0, false, false, false)

  ghost function KeyOf(x: Inode): Key {
    Key(x.fileid, Bytes(x.fh))
  }

  ghost function View(x: Inode): Rec {
    Rec(KeyOf(x), x.attrs, x.refs, x.count, x.freed)
  }

  /** `nfs_find_actor` */
  method FindActor(x: Inode, fh: Fh, fattr: FAttr) returns (found: bool)
    ensures found <==> KeyOf(x) == Key(fattr.fileid, Bytes(fh)) && x.ino != 0 && !x.stale
    ensures found <==> x.fileid == fattr.fileid && Bytes(x.fh) == Bytes(fh) && x.ino != 0 && !x.stale
  {
    if x.fileid != fattr.fileid {
      return false;
    }
    var differ := CompareFh(x.fh, fh);
    if differ != 0 {
      return false;
    }
    return x.ino != 0 && !x.stale;
  }

  // ----- what the tables say about the inodes -----

  /** Inode memory, the inodes by number and by key, and the keys the two tables hash them by. */
  datatype Index = Index(inodes: map<Ptr, Inode>, ids: map<u64, Ptr>, keys: map<Key, Ptr>,
                         idKey: map<Ptr, u64>, fhKey: map<Ptr, u64>)

  /** A linked inode is listed under its number and its key and hashed by its number and its fileid. */
  ghost predicate Listed(ix: Index, p: Ptr) {
    && p in ix.inodes && p in ix.idKey && p in ix.fhKey
    && var x := ix.inodes[p];
    && x.ino != 0 && x.ino in ix.ids && ix.ids[x.ino] == p && KeyOf(x) in ix.keys && ix.keys[KeyOf(x)] == p
    && ix.idKey[p] == x.ino && ix.fhKey[p] == x.fileid && !x.stale
  }

  ghost predicate IdListed(ix: Index, i: u64) {
    i in ix.ids && Listed(ix, ix.ids[i]) && ix.inodes[ix.ids[i]].ino == i
  }

  ghost predicate KeyListed(ix: Index, k: Key) {
    k in ix.keys && Listed(ix, ix.keys[k]) && KeyOf(ix.inodes[ix.keys[k]]) == k
  }

  /** Both tables hold exactly the listed inodes. */
  ghost predicate Consistent(ix: Index) {
    && ix.idKey.Keys == ix.fhKey.Keys
    && (forall p {:trigger Listed(ix, p)} :: p in ix.idKey ==> Listed(ix, p))
    && (forall i {:trigger IdListed(ix, i)} :: i in ix.ids ==> IdListed(ix, i))
    && (forall k {:trigger KeyListed(ix, k)} :: k in ix.keys ==> KeyListed(ix, k))
  }

  lemma OfId(ix: Index, i: u64)
    requires Consistent(ix) && i in ix.ids
    ensures IdListed(ix, i)
  {
  }

  lemma OfKey(ix: Index, k: Key)
    requires Consistent(ix) && k in ix.keys
    ensures KeyListed(ix, k)
  {
  }

  lemma OfNode(ix: Index, p: Ptr)
    requires Consistent(ix) && p in ix.idKey
    ensures Listed(ix, p)
  {
  }

  ghost function Recs(ix: Index): (m: map<u64, Rec>) {
    map i | i in ix.ids && IdListed(ix, i) :: View(ix.inodes[ix.ids[i]])
  }

  ghost function Numbers(ix: Index): (m: map<Key, u64>) {
    map k | k in ix.keys && KeyListed(ix, k) :: ix.inodes[ix.keys[k]].ino
  }

  /** The plain maps have the numbers and keys of the index. */
  lemma AbsKeys(ix: Index)
    requires Consistent(ix)
    ensures Recs(ix).Keys == ix.ids.Keys && Numbers(ix).Keys == ix.keys.Keys
  {
    forall i | i in ix.ids ensures IdListed(ix, i) { OfId(ix, i); }
    forall k | k in ix.keys ensures KeyListed(ix, k) { OfKey(ix, k); }
  }

  lemma Overwrite<K, V>(m: map<K, V>, k: K, u: V, v: V)
    ensures m[k := u][k := v] == m[k := v]
  {
  }

  /** A new inode after `nfs_init_locked`. */
  ghost function Fresh(fh: Fh, fattr: FAttr): (x: Inode)
    ensures KeyOf(x) == Key(fattr.fileid, Bytes(fh))
  {
    BLANK.(fileid := fattr.fileid, fh := Over(ZEROED, Bytes(fh)))
  }

  /** An inode after the last part of `hsi_nfs_fhget`. */
  ghost function Finished(x: Inode, f: FAttr): Inode {
    if x.isNew then x.(attrs := FromReply(f), isNew := false) else x.(attrs := Refresh(x.fileid, x.attrs, f).0)
  }

  /** Only an inode that is being made carries `I_NEW`. */
  ghost predicate AllSettled(linked: set<Ptr>, inodes: map<Ptr, Inode>) {
    forall p {:trigger inodes[p].isNew} :: p in linked && p in inodes ==> !inodes[p].isNew
  }

  lemma FinishedSettled(inodes: map<Ptr, Inode>, keyOf: map<Ptr, u64>, p: Ptr, x: Inode, f: FAttr)
    requires AllSettled(keyOf.Keys, inodes)
    ensures AllSettled(keyOf.Keys + {p}, inodes[p := Finished(x, f)])
    ensures inodes[p := x][p := Finished(x, f)] == inodes[p := Finished(x, f)]
  {
  }

  /** Linked inodes stay linked, at the same address and under the same number. */
  ghost predicate PtrsKept(m: map<Ptr, Inode>, linked: set<Ptr>, m': map<Ptr, Inode>, linked': set<Ptr>) {
    forall p :: p in linked && p in m ==> p in linked' && p in m' && m'[p].ino == m[p].ino
  }

  lemma PtrsKeptNew(m: map<Ptr, Inode>, linked: set<Ptr>, p: Ptr, x: Inode)
    requires p !in m
    ensures PtrsKept(m, linked, m[p := x], linked + {p})
  {
  }

  lemma WriteKeeps(m: map<Ptr, Inode>, linked: set<Ptr>, p: Ptr, x: Inode)
    requires AllSettled(linked, m) && !x.isNew && p in m && m[p].ino == x.ino
    ensures AllSettled(linked, m[p := x]) && PtrsKept(m, linked, m[p := x], linked)
  {
  }

  /** Linking a new inode. */
  ghost function Linking(ix: Index, p: Ptr, x: Inode): Index {
    Index(ix.inodes[p := x], ix.ids[x.ino := p], ix.keys[KeyOf(x) := p],
          ix.idKey[p := x.ino], ix.fhKey[p := x.fileid])
  }

  /** A new inode may be linked under a number and a key that nothing has. */
  ghost predicate Linkable(ix: Index, p: Ptr, x: Inode) {
    p !in ix.idKey && x.ino != 0 && x.ino !in ix.ids && KeyOf(x) !in ix.keys && !x.stale
  }

  lemma LinkingListed(ix: Index, p: Ptr, x: Inode, q: Ptr)
    requires Linkable(ix, p, x) && (q == p || Listed(ix, q))
    ensures Listed(Linking(ix, p, x), q)
  {
  }

  lemma LinkingId(ix: Index, p: Ptr, x: Inode, i: u64)
    requires Consistent(ix) && Linkable(ix, p, x) && i in Linking(ix, p, x).ids
    ensures IdListed(Linking(ix, p, x), i)
  {
    if i != x.ino { OfId(ix, i); }
    LinkingListed(ix, p, x, Linking(ix, p, x).ids[i]);
  }

  lemma LinkingKey(ix: Index, p: Ptr, x: Inode, k: Key)
    requires Consistent(ix) && Linkable(ix, p, x) && k in Linking(ix, p, x).keys
    ensures KeyListed(Linking(ix, p, x), k)
  {
    if k != KeyOf(x) { OfKey(ix, k); }
    LinkingListed(ix, p, x, Linking(ix, p, x).keys[k]);
  }

  lemma LinkingConsistent(ix: Index, p: Ptr, x: Inode)
    requires Consistent(ix) && Linkable(ix, p, x)
    ensures Consistent(Linking(ix, p, x))
  {
    var ix' := Linking(ix, p, x);
    forall q | q in ix'.idKey ensures Listed(ix', q) {
      if q != p { OfNode(ix, q); }
      LinkingListed(ix, p, x, q);
    }
    forall i | i in ix'.ids ensures IdListed(ix', i) { LinkingId(ix, p, x, i); }
    forall k | k in ix'.keys ensures KeyListed(ix', k) { LinkingKey(ix, p, x, k); }
  }

  lemma LinkingRecs(ix: Index, p: Ptr, x: Inode)
    requires Consistent(ix) && Linkable(ix, p, x) && Consistent(Linking(ix, p, x))
    ensures Recs(Linking(ix, p, x)) == Recs(ix)[x.ino := View(x)]
  {
    var ix' := Linking(ix, p, x);
    OfId(ix', x.ino);
    forall i | i in ix.ids ensures IdListed(ix, i) && IdListed(ix', i) && ix.ids[i] != p {
      OfId(ix, i);
      OfId(ix', i);
    }
  }

  lemma LinkingNumbers(ix: Index, p: Ptr, x: Inode)
    requires Consistent(ix) && Linkable(ix, p, x) && Consistent(Linking(ix, p, x))
    ensures Numbers(Linking(ix, p, x)) == Numbers(ix)[KeyOf(x) := x.ino]
  {
    var ix' := Linking(ix, p, x);
    OfKey(ix', KeyOf(x));
    forall k | k in ix.keys ensures KeyListed(ix, k) && KeyListed(ix', k) && ix.keys[k] != p {
      OfKey(ix, k);
      OfKey(ix', k);
    }
  }

  /** Changing fields of a linked inode other than those it is found by. */
  ghost function Changing(ix: Index, p: Ptr, x: Inode): Index {
    ix.(inodes := ix.inodes[p := x])
  }

  ghost predicate Changeable(ix: Index, p: Ptr, x: Inode) {
    && p in ix.idKey && p in ix.inodes
    && x.ino == ix.inodes[p].ino && KeyOf(x) == KeyOf(ix.inodes[p]) && !x.stale
  }

  lemma ChangingConsistent(ix: Index, p: Ptr, x: Inode)
    requires Consistent(ix) && Changeable(ix, p, x)
    ensures Consistent(Changing(ix, p, x))
  {
    var ix' := Changing(ix, p, x);
    forall q | q in ix'.idKey ensures Listed(ix', q) {
      OfNode(ix, q);
    }
    forall i | i in ix'.ids ensures IdListed(ix', i) {
      OfId(ix, i);
    }
    forall k | k in ix'.keys ensures KeyListed(ix', k) {
      OfKey(ix, k);
    }
  }

  lemma ChangingRecs(ix: Index, p: Ptr, x: Inode)
    requires Consistent(ix) && Changeable(ix, p, x) && Consistent(Changing(ix, p, x))
    ensures Recs(Changing(ix, p, x)) == Recs(ix)[x.ino := View(x)]
  {
    var ix' := Changing(ix, p, x);
    OfNode(ix, p);
    forall i | i in ix.ids ensures IdListed(ix, i) && IdListed(ix', i) && (ix.ids[i] == p <==> i == x.ino) {
      OfId(ix, i);
      OfId(ix', i);
    }
  }

  lemma ChangingNumbers(ix: Index, p: Ptr, x: Inode)
    requires Consistent(ix) && Changeable(ix, p, x) && Consistent(Changing(ix, p, x))
    ensures Numbers(Changing(ix, p, x)) == Numbers(ix)
  {
    var ix' := Changing(ix, p, x);
    forall k | k in ix.keys ensures KeyListed(ix, k) && KeyListed(ix', k) {
      OfKey(ix, k);
      OfKey(ix', k);
    }
  }

  /** Always true. What an invariant says under `Seal` stays folded in a proof that does not mention it. */
  ghost predicate Seal(t: int) {
    true
  }

  class Super {
    const idTable: Table
    const fhTable: Table
    var currId: u64
    /** Memory: the inode at every allocated address. */
    var inodes: map<Ptr, Inode>
    ghost var ids: map<u64, Ptr>
    ghost var keys: map<Key, Ptr>
    /** The plain-map cache the tables stand for; between operations it is `Abs()`. */
    ghost var cache: Cache

    ghost function Ix(): Index
      reads this`inodes, this`ids, this`keys, idTable`keyOf, fhTable`keyOf
    {
      Index(inodes, ids, keys, idTable.keyOf, fhTable.keyOf)
    }

    ghost predicate Ok()
      reads this`inodes, this`ids, this`keys, idTable, fhTable
    {
      idTable != fhTable && idTable.Valid() && fhTable.Valid() && Consistent(Ix())
    }

    ghost function Abs(): Cache
      reads this`currId, this`inodes, this`ids, this`keys, idTable`keyOf, fhTable`keyOf
    {
      Cache(currId, Recs(Ix()), Numbers(Ix()))
    }

    ghost predicate Valid()
      reads this, idTable, fhTable
    {
      Inv(cache) && cache in Meaning()
    }

    /** The plain-map caches the tables stand for, of which there is at most one. */
    ghost function Meaning(): iset<Cache>
      reads this`currId, this`inodes, this`ids, this`keys, idTable, fhTable
    {
      iset c: Cache | forall t {:trigger Seal(t)} :: Seal(t) ==> Live(c)
    }

    /** The tables are in order and stand for `c`. */
    ghost predicate Live(c: Cache)
      reads this`currId, this`inodes, this`ids, this`keys, idTable, fhTable
    {
      Ok() && Settled() && Abs() == c
    }

    /** `hsfs_init_icache`, with `curr_id` cleared as `hsi_fill_super` does. */
    constructor ()
      ensures Valid() && cache == EMPTY && fresh(idTable) && fresh(fhTable)
    {
      idTable := new Table();
      fhTable := new Table();
      currId, inodes, ids, keys, cache := 0, map[], map[], map[], EMPTY;
    }

    /** `__id_ifind`: walk one bucket. */
    method FindById(key: u64) returns (r: Option<Ptr>)
      requires Ok()
      ensures r == if key in ids then Some(ids[key]) else None
    {
      var node, b, c := idTable.Possible(key);
      assert key in ids ==> IdListed(Ix(), key) && ids[key] in c;
      ghost var i := 0;
      while node.Some?
        invariant i <= |c| && node == At(c, i)
        invariant forall j :: 0 <= j < i ==> c[j] in inodes && inodes[c[j]].ino != key
        decreases |c| - i
      {
        assert Linked(idTable.Mem(), b, c, i) && Listed(Ix(), c[i]);
        if inodes[node.value].ino == key {
          return node;
        }
        node := idTable.next[node.value];
        i := i + 1;
      }
      return None;
    }

    /** `__fh_ifind` with the test `nfs_find_actor`: walk one bucket. */
    method FindByFh(fh: Fh, fattr: FAttr) returns (r: Option<Ptr>)
      requires Ok()
      ensures var k := Key(fattr.fileid, Bytes(fh)); r == if k in keys then Some(keys[k]) else None
    {
      ghost var k := Key(fattr.fileid, Bytes(fh));
      var node, b, c := fhTable.Possible(fattr.fileid);
      assert k in keys ==> KeyListed(Ix(), k) && keys[k] in c;
      ghost var i := 0;
      while node.Some?
        invariant i <= |c| && node == At(c, i)
        invariant forall j :: 0 <= j < i ==> c[j] in inodes && KeyOf(inodes[c[j]]) != k
        decreases |c| - i
      {
        assert Linked(fhTable.Mem(), b, c, i) && Listed(Ix(), c[i]);
        var found := FindActor(inodes[node.value], fh, fattr);
        if found {
          return node;
        }
        node := fhTable.next[node.value];
        i := i + 1;
      }
      return None;
    }

    /** The loop of `__inode_add_to_lists`: turn the counter until it shows a free number. */
    method TakeId()
      requires Ok() && HasFree(ids.Keys)
      modifies this`currId
      ensures currId == FreshId(old(currId), ids.Keys)
    {
      ghost var used := ids.Keys;
      currId := Succ(currId);
      var taken := FindById(currId);
      while taken.Some?
        invariant taken.Some? <==> currId in used
        invariant FreshId(old(currId), used) == if currId in used then FreshId(currId, used) else currId
        decreases if currId in used then 1 + Turns(currId, SomeFree(used)) else 0
      {
        currId := Succ(currId);
        taken := FindById(currId);
      }
    }

    /** `__inode_add_to_lists` */
    method AddToLists(p: Ptr, key: u64)
      requires Ok() && HasFree(ids.Keys)
      requires p !in idTable.keyOf && p in inodes && !inodes[p].stale
      requires KeyOf(inodes[p]) !in keys && key == inodes[p].fileid
      modifies this`currId, this`inodes, this`ids, this`keys, idTable, fhTable
      ensures Ok() && currId == FreshId(old(currId), old(ids.Keys))
      ensures Ix() == Linking(old(Ix()), p, old(inodes[p]).(ino := currId))
      ensures Abs() == Cache(currId, old(Abs()).recs[currId := old(View(inodes[p]))],
                             old(Abs()).index[old(KeyOf(inodes[p])) := currId])
    {
      TakeId();
      ghost var x := inodes[p].(ino := currId);
      LinkingConsistent(Ix(), p, x);
      LinkingRecs(Ix(), p, x);
      LinkingNumbers(Ix(), p, x);
      inodes := inodes[p := inodes[p].(ino := currId)];
      idTable.Add(p, inodes[p].ino);
      fhTable.Add(p, key);
      ids, keys := ids[currId := p], keys[KeyOf(x) := p];
    }

    /** A write to fields of a linked inode that it is not found by. */
    method Write(p: Ptr, x: Inode)
      requires Ok() && Changeable(Ix(), p, x)
      modifies this`inodes
      ensures Ok() && inodes == old(inodes)[p := x]
      ensures Abs() == old(Abs()).(recs := old(Abs()).recs[x.ino := View(x)])
    {
      ChangingConsistent(Ix(), p, x);
      ChangingRecs(Ix(), p, x);
      ChangingNumbers(Ix(), p, x);
      inodes := inodes[p := x];
    }

    /** Memory at an address no table links is free to change. */
    lemma NotLinked(p: Ptr)
      requires Ok() && p !in inodes
      ensures p !in idTable.keyOf
    {
      if p in idTable.keyOf { OfNode(Ix(), p); }
    }

    lemma Allocating(p: Ptr, x: Inode)
      requires Ok() && p !in idTable.keyOf
      ensures Consistent(Changing(Ix(), p, x))
      ensures Recs(Changing(Ix(), p, x)) == Recs(Ix()) && Numbers(Changing(Ix(), p, x)) == Numbers(Ix())
    {
      var ix, ix' := Ix(), Changing(Ix(), p, x);
      forall q | q in ix.idKey ensures Listed(ix', q) { OfNode(ix, q); }
      forall i | i in ix.ids ensures IdListed(ix', i) && IdListed(ix, i) { OfId(ix, i); }
      forall k | k in ix.keys ensures KeyListed(ix', k) && KeyListed(ix, k) { OfKey(ix, k); }
    }

    /** `alloc_inode` at a new address, then `nfs_init_locked`: the inode is in no list yet. */
    method NewInode(p: Ptr, fh: Fh, fattr: FAttr)
      requires Ok() && p !in inodes
      modifies this`inodes
      ensures Ok() && Abs() == old(Abs()) && p !in idTable.keyOf
      ensures inodes == old(inodes)[p := Fresh(fh, fattr)]
    {
      NotLinked(p);
      Allocating(p, Fresh(fh, fattr));
      var inode := BLANK;
      var handle := CopyFh(inode.fh, fh);
      inode := inode.(fileid := fattr.fileid, fh := handle);
      inodes := inodes[p := inode];
    }

    /** `get_new_inode` after the allocation succeeded. */
    method GetNew(p: Ptr, fh: Fh, fattr: FAttr)
      requires Ok() && HasFree(ids.Keys) && Key(fattr.fileid, Bytes(fh)) !in keys && p !in inodes
      modifies this`currId, this`inodes, this`ids, this`keys, idTable, fhTable
      ensures Ok() && currId == FreshId(old(currId), old(ids.Keys))
      ensures idTable.keyOf == old(idTable.keyOf)[p := currId]
      ensures inodes == old(inodes)[p := Fresh(fh, fattr).(ino := currId, isNew := true)]
      ensures Abs() == Cache(currId, old(Abs()).recs[currId := View(inodes[p])],
                             old(Abs()).index[Key(fattr.fileid, Bytes(fh)) := currId])
    {
      NewInode(p, fh, fattr);
      AddToLists(p, fattr.fileid);
      ghost var x := inodes[p];
      Write(p, inodes[p].(isNew := true));
      Overwrite(old(inodes), p, Fresh(fh, fattr), x);
      Overwrite(old(inodes), p, x, x.(isNew := true));
      Overwrite(old(Abs()).recs, currId, View(x), View(inodes[p]));
    }

    /** `p` is the linked inode with number `i`. */
    ghost predicate Holds(p: Ptr, i: u64)
      reads this`inodes, idTable`keyOf
    {
      p in idTable.keyOf && p in inodes && inodes[p].ino == i
    }

    ghost predicate Settled()
      reads this`inodes, idTable`keyOf
    {
      AllSettled(idTable.keyOf.Keys, inodes)
    }

    /** The part of `hsi_nfs_fhget` that fills in a new inode, ending in `hsfs_unlock_new_inode`. */
    method Fill(p: Ptr, fattr: FAttr)
      requires Ok() && p in idTable.keyOf && p in inodes && inodes[p].fileid == fattr.fileid
      modifies this`inodes
      ensures Ok() && inodes == old(inodes)[p := old(inodes[p]).(attrs := FromReply(fattr), isNew := false)]
      ensures Abs() == old(Abs()).(recs := old(Abs()).recs[inodes[p].ino := View(inodes[p])])
    {
      OfNode(Ix(), p);
      var inode := inodes[p];
      inode := inode.(fileid := fattr.fileid);
      inode := inode.(attrs := inode.attrs.(mode := fattr.mode, atime := fattr.atime, mtime := fattr.mtime,
                                            ctime := fattr.ctime, size := SizeToOff(fattr.size), nlink := fattr.nlink,
                                            uid := fattr.uid, gid := fattr.gid, blocks := BlocksUsed(fattr.used)));
      Write(p, inode.(isNew := false));
    }

    /** `nfs_refresh_inode` with `nfs_update_inode` */
    method Update(p: Ptr, fattr: FAttr) returns (status: int)
      requires Ok() && p in idTable.keyOf && p in inodes
      modifies this`inodes
      ensures var (attrs, err) := Refresh(old(inodes[p]).fileid, old(inodes[p]).attrs, fattr);
              status == err && inodes == old(inodes)[p := old(inodes[p]).(attrs := attrs)]
      ensures Ok()
      ensures Abs() == old(Abs()).(recs := old(Abs()).recs[inodes[p].ino := Refreshed(old(View(inodes[p])), fattr)])
    {
      OfNode(Ix(), p);
      OfId(Ix(), inodes[p].ino);
      var inode := inodes[p];
      if !fattr.valid {
        return 0;
      }
      if inode.fileid != fattr.fileid {
        return -ESTALE;
      }
      if FileType(inode.attrs.mode) != FileType(fattr.mode) {
        return -ESTALE;
      }
      inode := inode.(attrs := inode.attrs.(size := SizeToOff(fattr.size), mtime := fattr.mtime, ctime := fattr.ctime,
                                            atime := fattr.atime, mode := fattr.mode, nlink := fattr.nlink,
                                            uid := fattr.uid, gid := fattr.gid, blocks := BlocksUsed(fattr.used)));
      Write(p, inode);
      return 0;
    }

    /** The rest of `hsi_nfs_fhget`: a new inode is filled in, a cached one is refreshed. */
    method Finish(p: Ptr, fattr: FAttr)
      requires Ok() && p in idTable.keyOf && p in inodes && inodes[p].fileid == fattr.fileid
      modifies this`inodes
      ensures Ok() && inodes == old(inodes)[p := Finished(old(inodes[p]), fattr)]
      ensures Abs() == old(Abs()).(recs := old(Abs()).recs[inodes[p].ino := View(inodes[p])])
    {
      if inodes[p].isNew {
        Fill(p, fattr);
      } else {
        var _ := Update(p, fattr);
      }
    }

    /** `hsi_nfs_fhget` when `hsfs_iget5_locked` finds the inode: it is linked and not new. */
    method Reuse(p: Ptr, fattr: FAttr)
      requires Ok() && Settled() && p in idTable.keyOf && p in inodes && inodes[p].fileid == fattr.fileid
      modifies this`inodes
      ensures Ok() && Settled() && Holds(p, old(inodes[p]).ino)
      ensures PtrsKept(old(inodes), old(idTable.keyOf.Keys), inodes, idTable.keyOf.Keys)
      ensures Abs() == old(Abs()).(recs := old(Abs()).recs[old(inodes[p]).ino := Refreshed(old(View(inodes[p])), fattr)])
    {
      Finish(p, fattr);
    }

    /** `hsi_nfs_fhget` when `hsfs_iget5_locked` has to make the inode. */
    method Make(p: Ptr, fh: Fh, fattr: FAttr)
      requires Ok() && Settled() && HasFree(ids.Keys) && Key(fattr.fileid, Bytes(fh)) !in keys && p !in inodes
      modifies this`currId, this`inodes, this`ids, this`keys, idTable, fhTable
      ensures Ok() && Settled() && Holds(p, currId) && currId == FreshId(old(currId), old(ids.Keys))
      ensures PtrsKept(old(inodes), old(idTable.keyOf.Keys), inodes, idTable.keyOf.Keys)
      ensures Abs() == Cache(currId, old(Abs()).recs[currId := NewRec(Key(fattr.fileid, Bytes(fh)), fattr)],
                             old(Abs()).index[Key(fattr.fileid, Bytes(fh)) := currId])
    {
      GetNew(p, fh, fattr);
      ghost var x := inodes[p];
      Finish(p, fattr);
      FinishedSettled(old(inodes), old(idTable.keyOf), p, x, fattr);
      PtrsKeptNew(old(inodes), old(idTable.keyOf.Keys), p, inodes[p]);
      Overwrite(old(Abs()).recs, currId, View(x), View(inodes[p]));
    }

    /** `hsi_nfs_fhget` with `hsfs_iget5_locked`; `alloc` is what an allocation would return. */
    method FhGet(fh: Fh, fattr: FAttr, alloc: Option<Ptr>) returns (r: Got, p: Ptr)
      requires Valid() && CanGet(cache, Bytes(fh), fattr) && (alloc.Some? ==> alloc.value !in inodes)
      modifies this, idTable, fhTable
      ensures Valid()
      ensures (cache, r) == CacheSpec.FhGet(old(cache), Bytes(fh), fattr, alloc.Some?)
      ensures r.Got? ==> Holds(p, r.ino)
      ensures PtrsKept(old(inodes), old(idTable.keyOf.Keys), inodes, idTable.keyOf.Keys)
    {
      r, p := Failed(ENOENT), 0;
      if fattr.valid && fattr.nlink != 0 {
        FhGetKeepsInv(cache, Bytes(fh), fattr, alloc.Some?);
        cache := CacheSpec.FhGet(cache, Bytes(fh), fattr, alloc.Some?).0;
        r, p := GetLive(fh, fattr, alloc, old(cache));
      }
    }

    method GetLive(fh: Fh, fattr: FAttr, alloc: Option<Ptr>, ghost c: Cache) returns (r: Got, p: Ptr)
      requires c in Meaning() && Inv(c) && fattr.valid && fattr.nlink != 0
      requires CanGet(c, Bytes(fh), fattr) && (alloc.Some? ==> alloc.value !in inodes)
      modifies this`currId, this`inodes, this`ids, this`keys, idTable, fhTable
      ensures var (c', got) := CacheSpec.FhGet(c, Bytes(fh), fattr, alloc.Some?); c' in Meaning() && r == got
      ensures r.Got? ==> Holds(p, r.ino)
      ensures PtrsKept(old(inodes), old(idTable.keyOf.Keys), inodes, idTable.keyOf.Keys)
    {
      assert Seal(0);
      AbsKeys(Ix());
      r, p := Failed(ENOMEM), 0;
      var found := FindByFh(fh, fattr);
      if found.Some? {
        p := found.value;
        OfKey(Ix(), Key(fattr.fileid, Bytes(fh)));
        OfId(Ix(), inodes[p].ino);
        r := Got(inodes[p].ino);
        Reuse(p, fattr);
      } else if alloc.Some? {
        p := alloc.value;
        Make(p, fh, fattr);
        r := Got(currId);
      }
    }

    /** `hsfs_ilookup` */
    method Ilookup(ino: u64) returns (r: Option<Ptr>)
      requires Valid()
      ensures r.Some? <==> ino in cache.recs
      ensures r.Some? ==> Holds(r.value, ino)
    {
      assert Seal(0);
      r := FindById(ino);
      AbsKeys(Ix());
      if r.Some? { OfId(Ix(), ino); }
    }

    /** The record of a linked inode is what its memory holds; it is complete, current and not freed. */
    lemma HeldRec(p: Ptr, i: u64)
      requires Valid() && Holds(p, i)
      ensures i in cache.recs && cache.recs[i] == View(inodes[p])
      ensures !inodes[p].stale && !inodes[p].isNew && inodes[p].count <= 0 && !inodes[p].freed
    {
      assert Seal(0);
      OfNode(Ix(), p);
      OfId(Ix(), i);
      assert GoodRec(cache, i);
    }

    /** A write to an inode's attributes or counts. */
    method Modify(p: Ptr, i: u64, x: Inode)
      requires Valid() && Holds(p, i) && x.ino == i && KeyOf(x) == KeyOf(inodes[p])
      requires !x.stale && !x.isNew && x.count <= 0 && !x.freed
      modifies this`inodes, this`cache
      ensures Valid() && Holds(p, i) && inodes == old(inodes)[p := x]
      ensures cache == old(cache).(recs := old(cache).recs[i := View(x)])
      ensures PtrsKept(old(inodes), idTable.keyOf.Keys, inodes, idTable.keyOf.Keys)
    {
      HeldRec(p, i);
      SetKeepsInv(cache, i, View(x));
      cache := cache.(recs := cache.recs[i := View(x)]);
      WriteLive(p, x, old(cache));
    }

    method WriteLive(p: Ptr, x: Inode, ghost c: Cache)
      requires c in Meaning() && Changeable(Ix(), p, x) && !x.isNew
      modifies this`inodes
      ensures c.(recs := c.recs[x.ino := View(x)]) in Meaning() && inodes == old(inodes)[p := x]
      ensures PtrsKept(old(inodes), idTable.keyOf.Keys, inodes, idTable.keyOf.Keys)
    {
      assert Seal(0);
      WriteKeeps(inodes, idTable.keyOf.Keys, p, x);
      Write(p, x);
    }

    /** `nfs_refresh_inode` of a linked inode, between operations. */
    method RefreshHeld(p: Ptr, i: u64, fattr: FAttr) returns (status: int)
      requires Valid() && Holds(p, i)
      modifies this`inodes, this`cache
      ensures Valid() && Holds(p, i) && i in old(cache).recs
      ensures status == Refresh(old(cache).recs[i].key.fileid, old(cache).recs[i].attrs, fattr).1
      ensures cache == old(cache).(recs := old(cache).recs[i := Refreshed(old(cache).recs[i], fattr)])
      ensures PtrsKept(old(inodes), idTable.keyOf.Keys, inodes, idTable.keyOf.Keys)
    {
      HeldRec(p, i);
      SetKeepsInv(cache, i, Refreshed(cache.recs[i], fattr));
      cache := cache.(recs := cache.recs[i := Refreshed(cache.recs[i], fattr)]);
      status := UpdateLive(p, fattr, old(cache));
    }

    method UpdateLive(p: Ptr, fattr: FAttr, ghost c: Cache) returns (status: int)
      requires c in Meaning() && p in idTable.keyOf && p in inodes
      modifies this`inodes
      ensures status == Refresh(old(inodes[p]).fileid, old(inodes[p]).attrs, fattr).1
      ensures c.(recs := c.recs[old(inodes[p]).ino := Refreshed(old(View(inodes[p])), fattr)]) in Meaning()
      ensures Holds(p, old(inodes[p]).ino) && PtrsKept(old(inodes), idTable.keyOf.Keys, inodes, idTable.keyOf.Keys)
    {
      assert Seal(0);
      ghost var x := inodes[p].(attrs := Refresh(inodes[p].fileid, inodes[p].attrs, fattr).0);
      WriteKeeps(inodes, idTable.keyOf.Keys, p, x);
      status := Update(p, fattr);
    }
  }

  /** Bucket `b` of a table holds the inode at `p`. */
  ghost predicate Holding(t: Table, b: nat, p: Ptr)
    reads t
  {
    b < |t.chains| && p in t.chains[b]
  }

  /** Both tables hold the same inodes, each once and in the bucket its number or its fileid hashes to; none was
      freed, and the plain-map cache lists just these. */
  lemma WellPlaced(s: Super, p: Ptr, b: nat)
    requires s.Valid() && b < BUCKETS
    ensures var linked := p in s.idTable.keyOf;
            && (linked ==> && p in s.inodes && !s.inodes[p].freed
                           && s.inodes[p].ino in s.cache.recs && s.cache.recs[s.inodes[p].ino] == View(s.inodes[p])
                           && KeyOf(s.inodes[p]) in s.cache.index && s.cache.index[KeyOf(s.inodes[p])] == s.inodes[p].ino)
            && (Holding(s.idTable, b, p) <==> linked && b == Bucket(s.inodes[p].ino))
            && (Holding(s.fhTable, b, p) <==> linked && b == Bucket(s.inodes[p].fileid))
    ensures |s.idTable.chains| == |s.fhTable.chains| == BUCKETS
    ensures NoRepeats(s.idTable.chains[b]) && NoRepeats(s.fhTable.chains[b])
  {
    assert Seal(0);
    Placed(s.idTable.Mem(), s.idTable.chains, s.idTable.keyOf, p, b);
    Placed(s.fhTable.Mem(), s.fhTable.chains, s.fhTable.keyOf, p, b);
    if p in s.idTable.keyOf {
      OfNode(s.Ix(), p);
      var x := s.inodes[p];
      OfId(s.Ix(), x.ino);
      OfKey(s.Ix(), KeyOf(x));
      assert GoodRec(s.cache, x.ino);
    }
  }
}
