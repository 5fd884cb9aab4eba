/**
 The inode cache as plain maps: what the two hash tables have to agree with.
 Every operation is a function from one cache value to the next.
 */
module CacheSpec {
  import opened Basics
  import opened Attributes

  /** What identifies a server object: its fileid and the bytes of its file handle. */
  datatype Key = Key(fileid: u64, fh: seq<byte>)

  /** `refs` is `private`, the FUSE lookup count; `count` is `i_count`. */
  datatype Rec = Rec(key: Key, attrs: Attrs, refs: u64, count: int, freed: bool)

  datatype Cache = Cache(curr: u64, recs: map<u64, Rec>, index: map<Key, u64>)

  const EMPTY := Cache(0, map[], map[])

  // ----- local inode numbers -----

  /** One turn of the allocator's counter: past 2^64 - 1 it continues at 2. */
  function Succ(c: u64): (r: u64)
    ensures r != 0 && r != c
  {
    if c + 1 == TWO64 then 2 else c + 1
  }

  /** Turns of the counter from `c` until it shows `f`. */
  ghost function Turns(c: u64, f: u64): (d: nat)
    requires 2 <= f
    ensures Succ(c) != f ==> 0 < d
  {
    if c < f then f - c else TWO64 - c + f - 2
  }

  ghost predicate HasFree(used: set<u64>) {
    exists f: u64 :: 2 <= f && f !in used
  }

  ghost function SomeFree(used: set<u64>): (f: u64)
    requires HasFree(used)
    ensures 2 <= f && f !in used
  {
    var f: u64 :| 2 <= f && f !in used;
    f
  }

  /** The number the allocator loop stops at when it starts from `c`. */
  ghost function FreshId(c: u64, used: set<u64>): (r: u64)
    requires HasFree(used)
    ensures r != 0 && r !in used
    ensures r == 1 <==> c == 0 && 1 !in used
    decreases Turns(c, SomeFree(used))
  {
    var n := Succ(c);
    if n !in used then n else FreshId(n, used)
  }

  /** It is the first free number: every number the counter passes on the way is taken. */
  lemma {:induction false} FreshIdIsFirst(c: u64, used: set<u64>, j: u64)
    requires HasFree(used) && FreshId(c, used) >= 2
    requires 2 <= j && Turns(c, j) < Turns(c, FreshId(c, used))
    requires j != c
    ensures j in used
    decreases Turns(c, SomeFree(used))
  {
    var n := Succ(c);
    if n in used && n != j {
      FreshIdIsFirst(n, used, j);
    }
  }

  /** The same in numbers: what lies between the counter and the new number is in use, around the end if need be. */
  lemma {:induction false} FreshIdSpan(c: u64, used: set<u64>)
    requires HasFree(used)
    ensures var r := FreshId(c, used);
            && (r > c ==> forall j: u64 :: c < j < r ==> j in used)
            && (r <= c ==> r >= 2 && (forall j: u64 :: c < j ==> j in used) && (forall j: u64 :: 2 <= j < r ==> j in used))
    decreases Turns(c, SomeFree(used))
  {
    var n := Succ(c);
    if n in used {
      FreshIdSpan(n, used);
    }
  }

  lemma {:induction false} TakenUpTo(used: set<u64>, n: int)
    requires 2 <= n <= TWO64
    requires forall f: u64 :: 2 <= f < n ==> f in used
    ensures |used| >= n - 2
    decreases n
  {
    if n > 2 {
      TakenUpTo(used - {n - 1}, n - 1);
    }
  }

  /** Pigeonhole: the allocator can only get stuck with 2^64 - 2 numbers taken. */
  lemma FewTakenHasFree(used: set<u64>)
    requires |used| < TWO64 - 2
    ensures HasFree(used)
  {
    if !HasFree(used) {
      TakenUpTo(used, TWO64);
    }
  }

  // ----- operations -----

  datatype Got = Got(ino: u64) | Failed(errno: int)

  function NewRec(k: Key, f: FAttr): Rec {
    Rec(k, FromReply(f), 0, 0, false)
  }

  /** A call that has to make a new inode needs a free number; otherwise it never returns. */
  ghost predicate CanGet(c: Cache, fh: seq<byte>, f: FAttr) {
    Key(f.fileid, fh) in c.index || HasFree(c.recs.Keys)
  }

  /** `hsi_nfs_fhget`; `mem` says whether the allocation of an inode would succeed. */
  ghost function FhGet(c: Cache, fh: seq<byte>, f: FAttr, mem: bool): (r: (Cache, Got))
    requires Inv(c) && CanGet(c, fh, f)
  {
    var k := Key(f.fileid, fh);
    if !f.valid || f.nlink == 0 then (c, Failed(ENOENT))
    else if k in c.index then
      assert GoodKey(c, k);
      var i := c.index[k];
      (c.(recs := c.recs[i := Refreshed(c.recs[i], f)]), Got(i))
    else if !mem then (c, Failed(ENOMEM))
    else
      var i := FreshId(c.curr, c.recs.Keys);
      (Cache(i, c.recs[i := NewRec(k, f)], c.index[k := i]), Got(i))
  }

  /** Getting the inode with key `k` turned `c` into `c'`: it has number `i` and lookup count `refs`; its attributes are the
      reply's if it is new or its type agrees, and otherwise the old ones; every other record is unchanged. */
  ghost predicate Obtained(c: Cache, c': Cache, k: Key, f: FAttr, i: u64, refs: int) {
    && i in c'.recs && c'.recs[i].key == k && c'.recs[i].refs == refs
    && c'.recs.Keys == c.recs.Keys + {i} && (forall j :: j in c.recs && j != i ==> c'.recs[j] == c.recs[j])
    && if k in c.index then
         && i == c.index[k] && i in c.recs && c'.curr == c.curr && c'.index == c.index
         && c'.recs[i].count == c.recs[i].count && c'.recs[i].freed == c.recs[i].freed
         && (if SameType(c.recs[i].attrs.mode, f.mode) then Carries(c'.recs[i].attrs, f) else c'.recs[i].attrs == c.recs[i].attrs)
       else
         && i !in c.recs && i != 0 && c'.curr == i && c'.index == c.index[k := i]
         && c'.recs[i].count == 0 && !c'.recs[i].freed && Carries(c'.recs[i].attrs, f)
  }

  /** The lookup count of the inode with key `k`, zero if there is none. */
  ghost function CountOf(c: Cache, k: Key): int {
    if k in c.index && c.index[k] in c.recs then c.recs[c.index[k]].refs else 0
  }

  /** What `hsi_nfs_fhget` answers in every case: ENOENT, ENOMEM, or the inode. */
  lemma FhGetAnswers(c: Cache, fh: seq<byte>, f: FAttr, mem: bool)
    requires Inv(c) && CanGet(c, fh, f)
    ensures var (c', got) := FhGet(c, fh, f, mem);
            var k := Key(f.fileid, fh);
            if !f.valid || f.nlink == 0 then got == Failed(2) && c' == c
            else if k !in c.index && !mem then got == Failed(12) && c' == c
            else got.Got? && Obtained(c, c', k, f, got.ino, CountOf(c, k))
  {
    var k := Key(f.fileid, fh);
    if k in c.index {
      assert GoodKey(c, k);
      RefreshMeans(c.recs[c.index[k]].key.fileid, c.recs[c.index[k]].attrs, f);
    }
  }

  function Refreshed(r: Rec, f: FAttr): Rec {
    r.(attrs := Refresh(r.key.fileid, r.attrs, f).0)
  }

  /** `hsfs_iput`: `generic_drop_inode` frees an inode that still has links. */
  function Put(r: Rec): Rec {
    r.(count := r.count - 1, freed := r.freed || (r.count == 1 && r.attrs.nlink != 0))
  }

  // ----- invariant -----

  ghost predicate GoodRec(c: Cache, i: u64)
    requires i in c.recs
  {
    var r := c.recs[i];
    i != 0 && r.count <= 0 && !r.freed && r.key in c.index && c.index[r.key] == i
  }

  ghost predicate GoodKey(c: Cache, k: Key)
    requires k in c.index
  {
    c.index[k] in c.recs && c.recs[c.index[k]].key == k
  }

  /** Numbers and keys are in one-to-one correspondence and no listed inode was freed. */
  ghost predicate Inv(c: Cache) {
    && (forall i {:trigger GoodRec(c, i)} :: i in c.recs ==> GoodRec(c, i))
    && (forall k {:trigger GoodKey(c, k)} :: k in c.index ==> GoodKey(c, k))
    && (c.curr == 0 <==> c.recs == map[])
    && (c.curr != 0 ==> 1 in c.recs)
  }

  /** A listed inode's record may change as long as its key stays and nothing is freed. */
  lemma SetKeepsInv(c: Cache, i: u64, r: Rec)
    requires Inv(c) && i in c.recs && r.key == c.recs[i].key && r.count <= 0 && !r.freed
    ensures Inv(c.(recs := c.recs[i := r]))
  {
    var c' := c.(recs := c.recs[i := r]);
    forall j | j in c'.recs ensures GoodRec(c', j) { assert GoodRec(c, j); }
    forall k | k in c'.index ensures GoodKey(c', k) { assert GoodKey(c, k); }
  }

  lemma AddKeepsInv(c: Cache, i: u64, k: Key, f: FAttr)
    requires Inv(c) && i !in c.recs && k !in c.index && i != 0 && (c.curr == 0 ==> i == 1)
    ensures Inv(Cache(i, c.recs[i := NewRec(k, f)], c.index[k := i]))
  {
    var c' := Cache(i, c.recs[i := NewRec(k, f)], c.index[k := i]);
    forall j | j in c'.recs ensures GoodRec(c', j) {
      if j != i { assert GoodRec(c, j); }
    }
    forall j | j in c'.index ensures GoodKey(c', j) {
      if j != k { assert GoodKey(c, j); }
    }
    assert i in c'.recs;
  }

  lemma FhGetKeepsInv(c: Cache, fh: seq<byte>, f: FAttr, mem: bool)
    requires Inv(c) && CanGet(c, fh, f)
    ensures Inv(FhGet(c, fh, f, mem).0)
  {
    var k := Key(f.fileid, fh);
    if f.valid && f.nlink != 0 {
      if k in c.index {
        assert GoodKey(c, k) && GoodRec(c, c.index[k]);
        SetKeepsInv(c, c.index[k], Refreshed(c.recs[c.index[k]], f));
      } else if mem {
        AddKeepsInv(c, FreshId(c.curr, c.recs.Keys), k, f);
      }
    }
  }
}
