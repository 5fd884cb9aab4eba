/**
 Listing a directory with READDIRPLUS (fuse/hsx_fuse_readdir.c, nfs3/hsi_nfs3_readdir.c; section 3.3.17 of
 RFC 1813): the listing of READDIR, and one reference handed out for every entry shown.
 */
module PlusListing {
  import opened Basics
  import opened HashTable
  import opened Attributes
  import opened CacheSpec
  import opened FileHandle
  import opened InodeCache
  import opened Packing
  import opened Readdir
  import opened FuseSpec
  import opened FuseRuns
  import opened Fuse

  /** A server's entry with what READDIRPLUS adds; the object behind a directory entry does not change. */
  ghost predicate EntryFor(p: PlusEntry, e: DirEntry, h: DirEntry -> WireFh, esize: string -> nat) {
    && p.name == e.name && p.cookie == e.cookie && p.esize == esize(CopyName(e.name))
    && (p.handle.Some? ==> p.handle.value == h(e) && p.fattr.fileid == e.fileid)
  }

  ghost predicate EntriesFor(es: seq<PlusEntry>, b: seq<DirEntry>, h: DirEntry -> WireFh, esize: string -> nat) {
    |es| == |b| && forall j {:trigger es[j]} :: 0 <= j < |es| ==> EntryFor(es[j], b[j], h, esize)
  }

  /** An entry that yields an inode. */
  predicate Usable(p: PlusEntry) {
    p.handle.Some? && p.fattr.valid && p.fattr.nlink != 0 && p.mem
  }

  /** An entry as shown: the name and the cookie of the directory entry, and the inode of its object. */
  ghost predicate ShownAs(s: Shown, e: DirEntry, h: DirEntry -> WireFh, c: Cache) {
    s.name == CopyName(e.name) && s.off == e.cookie && s.ino in c.recs && c.recs[s.ino].key == Key(e.fileid, h(e))
  }

  /** `shown` are the entries of `dir` from `pos` on, in order. */
  ghost predicate ShownFrom(shown: seq<Shown>, dir: seq<DirEntry>, pos: nat, h: DirEntry -> WireFh, c: Cache) {
    && pos + |shown| <= |dir|
    && forall j {:trigger shown[j]} :: 0 <= j < |shown| ==> ShownAs(shown[j], dir[pos + j], h, c)
  }

  lemma ShownLater(shown: seq<Shown>, dir: seq<DirEntry>, h: DirEntry -> WireFh, c: Cache, c': Cache)
    requires ShownFrom(shown, dir, 0, h, c) && Later(c, c')
    ensures ShownFrom(shown, dir, 0, h, c')
  {
    forall j | 0 <= j < |shown| ensures ShownAs(shown[j], dir[0 + j], h, c') {
      assert Kept(c, c', shown[j].ino);
    }
  }

  /** How many entries of a listing name inode `i`. */
  function EntryCount(shown: seq<Shown>, i: u64): nat {
    CountShown(shown, i, true) + CountShown(shown, i, false)
  }

  lemma {:induction false} CountJoins(a: seq<Shown>, b: seq<Shown>, i: u64, dots: bool)
    ensures CountShown(a + b, i, dots) == CountShown(a, i, dots) + CountShown(b, i, dots)
  {
    if b == [] {
      assert a + b == a;
    } else {
      var n := |b| - 1;
      assert (a + b)[..|a| + n] == a + b[..n];
      CountJoins(a, b[..n], i, dots);
    }
  }

  // ----- one reply -----

  /** The inodes obtained for a reply are those of its entries. */
  lemma {:induction false} GetAllKeys(c: Cache, es: seq<PlusEntry>, j: nat)
    requires Inv(c) && Room(c, |es|) && j < |GetAll(c, es).1|
    ensures var (c', inos, _) := GetAll(c, es);
            es[j].handle.Some? && inos[j] in c'.recs && c'.recs[inos[j]].key == Key(es[j].fattr.fileid, es[j].handle.value)
  {
    var n := |es| - 1;
    var (c1, inos, last) := GetAll(c, es[..n]);
    if j < |inos| {
      GetAllKeys(c, es[..n], j);
      if last.Got? {
        assert Kept(c1, GetOne(c1, es[n]).0, inos[j]);
      }
    } else {
      GetFacts(c1, es[n].handle.value, es[n].fattr, es[n].mem);
    }
  }

  /** If every entry is usable, none fails. */
  lemma {:induction false} GetAllUsable(c: Cache, es: seq<PlusEntry>)
    requires Inv(c) && Room(c, |es|) && forall j :: 0 <= j < |es| ==> Usable(es[j])
    ensures GetAll(c, es).2.Got?
  {
    if es != [] {
      GetAllUsable(c, es[..|es| - 1]);
    }
  }

  lemma ReplyKeys(c1: Cache, c0: Cache, es: seq<PlusEntry>, inos: seq<u64>, k: nat, b: seq<DirEntry>,
                  h: DirEntry -> WireFh, esize: string -> nat, j: nat)
    requires Inv(c0) && Room(c0, |es|) && GetAll(c0, es) == (c1, inos, GetAll(c0, es).2) && EntriesFor(es, b, h, esize)
    requires j < k <= |inos| && Inv(c1)
    ensures ShownAs(ShownOf(es, inos[..k])[j], b[j], h, AddRefs(c1, inos[..k]))
  {
    GetAllKeys(c0, es, j);
    AddRefsFacts(c1, inos[..k]);
    assert Kept(c1, AddRefs(c1, inos[..k]), inos[j]);
    assert EntryFor(es[j], b[j], h, esize);
  }

  /** Nothing stands in the way of a reply: attributes of this directory, usable entries, a buffer. */
  ghost predicate Servable(c: Cache, parent: u64, f: FAttr, es: seq<PlusEntry>, buf: bool) {
    && buf && (forall j :: 0 <= j < |es| ==> Usable(es[j]))
    && parent in c.recs && Refresh(c.recs[parent].key.fileid, c.recs[parent].attrs, f).1 == 0
  }

  /** What one READDIRPLUS request does: an error, or the packed entries of the reply with their inodes. */
  lemma PlusReplyShows(c: Cache, parent: u64, size: nat, f: FAttr, es: seq<PlusEntry>, buf: bool,
                       b: seq<DirEntry>, h: DirEntry -> WireFh, esize: string -> nat)
    requires Inv(c) && Room(c, |es|) && parent in c.recs && EntriesFor(es, b, h, esize)
    ensures var (c', out) := PlusStep(c, parent, size, Plus(f, es, buf));
            && (out.Error? || out.Listing?)
            && (out.Listing? ==> |out.shown| == Fits(EntrySizes(b, esize), size) && ShownFrom(out.shown, b, 0, h, c'))
            && (Servable(c, parent, f, es, buf) ==> out.Listing?)
  {
    if Refresh(c.recs[parent].key.fileid, c.recs[parent].attrs, f).1 == 0 {
      RefreshFacts(c, parent, f);
      var c0 := SetRec(c, parent, Refreshed(c.recs[parent], f));
      var (c1, inos, last) := GetAll(c0, es);
      if forall j :: 0 <= j < |es| ==> Usable(es[j]) {
        GetAllUsable(c0, es);
      }
      if last.Got? && buf {
        assert Sizes(es) == EntrySizes(b, esize);
        var k := Fits(Sizes(es), size);
        forall j | 0 <= j < k ensures ShownAs(ShownOf(es, inos[..k])[j], b[0 + j], h, AddRefs(c1, inos[..k])) {
          ReplyKeys(c1, c0, es, inos, k, b, h, esize, j);
        }
      }
    }
  }

  // ----- a whole listing -----

  /** Every count went up by the entries shown for the inode, wrapping at 64 bits. */
  ghost predicate Counted(c0: Cache, c: Cache, shown: seq<Shown>) {
    forall i: u64 {:trigger EntryCount(shown, i)} :: Cong(RefsOf(c, i), RefsOf(c0, i) + EntryCount(shown, i))
  }

  lemma CountedMore(c0: Cache, c1: Cache, c2: Cache, shown: seq<Shown>, more: seq<Shown>, op: Op, out: Outcome)
    requires Counted(c0, c1, shown) && Effect(c1, c2, op, out) && op.ReaddirPlus?
    requires out == Listing(more) || (out.Error? && more == [])
    ensures Counted(c0, c2, shown + more)
  {
    forall i: u64 ensures Cong(RefsOf(c2, i), RefsOf(c0, i) + EntryCount(shown + more, i)) {
      assert Moved(c1, c2, op, out, i);
      CountJoins(shown, more, i, true);
      CountJoins(shown, more, i, false);
      var d := EntryCount(more, i);
      assert Cong(RefsOf(c1, i), RefsOf(c0, i) + EntryCount(shown, i));
      CongShift(RefsOf(c1, i), RefsOf(c0, i) + EntryCount(shown, i), d);
      CongTrans(RefsOf(c2, i), RefsOf(c1, i) + d, RefsOf(c1, i) + d, RefsOf(c0, i) + EntryCount(shown, i) + d);
    }
  }

  /** Inodes that `k` replies of `d` entries can add. */
  function Budget(k: nat, d: nat): nat {
    if k == 0 then 0 else Budget(k - 1, d) + d
  }

  lemma {:induction false} BudgetGrows(j: nat, k: nat, d: nat)
    requires j <= k
    ensures Budget(j, d) <= Budget(k, d)
    decreases k
  {
    if j < k {
      BudgetGrows(j, k - 1, d);
    }
  }

  function DetailAll(b: seq<DirEntry>, detail: DirEntry -> PlusEntry): (es: seq<PlusEntry>)
    ensures |es| == |b| && forall j :: 0 <= j < |b| ==> es[j] == detail(b[j])
  {
    if b == [] then [] else DetailAll(b[..|b| - 1], detail) + [detail(b[|b| - 1])]
  }

  /** What a server adds to its entries is about these entries. */
  ghost predicate Details(detail: DirEntry -> PlusEntry, dir: seq<DirEntry>, h: DirEntry -> WireFh, esize: string -> nat) {
    forall e {:trigger detail(e)} :: e in dir ==> EntryFor(detail(e), e, h, esize)
  }

  lemma DetailsFor(detail: DirEntry -> PlusEntry, dir: seq<DirEntry>, pos: nat, b: seq<DirEntry>,
                   h: DirEntry -> WireFh, esize: string -> nat)
    requires Details(detail, dir, h, esize) && pos <= |dir| && b <= dir[pos..]
    ensures EntriesFor(DetailAll(b, detail), b, h, esize)
  {
    forall j | 0 <= j < |b| ensures EntryFor(DetailAll(b, detail)[j], b[j], h, esize) {
      assert b[j] == dir[pos..][j] == dir[pos + j];
    }
  }

  /** The state of a listing between two requests, after `shown`. */
  ghost predicate Listed(c0: Cache, c: Cache, parent: u64, dir: seq<DirEntry>, h: DirEntry -> WireFh, shown: seq<Shown>, all: nat) {
    && Inv(c) && parent in c0.recs && Later(c0, c) && Counted(c0, c, shown)
    && |shown| <= all <= |dir| && ShownFrom(shown, dir, 0, h, c) && Room(c, Budget(all - |shown| + 1, |dir|))
  }

  /** What a reply adds to the listing: the next entries, none only at the end. */
  ghost predicate Shows(c0: Cache, c: Cache, parent: u64, dir: seq<DirEntry>, h: DirEntry -> WireFh, shown: seq<Shown>,
                        more: seq<Shown>, all: nat) {
    && Later(c0, c) && Counted(c0, c, shown + more) && ShownFrom(shown + more, dir, 0, h, c)
    && (more == [] ==> |shown| == all)
    && (more != [] ==> Listed(c0, c, parent, dir, h, shown + more, all)
                       && more[|more| - 1].off == CookieAt(dir, |shown| + |more|))
  }

  /** The listing after an answered request, whatever state the request left. */
  lemma ListedNext(c0: Cache, c: Cache, c': Cache, parent: u64, dir: seq<DirEntry>, h: DirEntry -> WireFh, shown: seq<Shown>,
                   all: nat, op: Op, more: seq<Shown>, b: seq<DirEntry>, esize: string -> nat, size: nat)
    requires Listed(c0, c, parent, dir, h, shown, all) && all == Leading(EntrySizes(dir, esize), size)
    requires b <= dir[|shown|..] && (|shown| < |dir| ==> b != [])
    requires op.ReaddirPlus? && Effect(c, c', op, Listing(more)) && Need(op) <= |dir|
    requires |more| == Fits(EntrySizes(b, esize), size) && ShownFrom(more, b, 0, h, c')
    ensures Shows(c0, c', parent, dir, h, shown, more, all)
  {
    LaterTrans(c0, c, c');
    CountedMore(c0, c, c', shown, more, op, Listing(more));
    assert |shown| + |more| <= all && (more == [] ==> |shown| == all) by {
      Resume(dir, |shown|, b, esize, size);
    }
    if more != [] {
      BudgetGrows(all - |shown| - |more| + 1, all - |shown|, |dir|);
    }
    JoinShown(shown, more, dir, b, h, c, c');
  }

  lemma JoinShown(shown: seq<Shown>, more: seq<Shown>, dir: seq<DirEntry>, b: seq<DirEntry>, h: DirEntry -> WireFh, c: Cache, c': Cache)
    requires ShownFrom(shown, dir, 0, h, c) && Later(c, c') && b <= dir[|shown|..] && ShownFrom(more, b, 0, h, c')
    ensures ShownFrom(shown + more, dir, 0, h, c')
    ensures more != [] ==> more[|more| - 1].off == CookieAt(dir, |shown| + |more|)
  {
    ShownLater(shown, dir, h, c, c');
    forall j | 0 <= j < |more| ensures ShownAs(more[j], dir[|shown| + j], h, c') {
      assert b[j] == dir[|shown|..][j] == dir[|shown| + j];
      assert ShownAs(more[j], b[0 + j], h, c');
    }
    var both := shown + more;
    forall j | 0 <= j < |both| ensures ShownAs(both[j], dir[0 + j], h, c') {
      if j < |shown| {
        assert ShownAs(shown[j], dir[0 + j], h, c');
      } else {
        assert ShownAs(more[j - |shown|], dir[|shown| + (j - |shown|)], h, c');
      }
    }
  }

  /** One request more. */
  lemma ListedMore(c0: Cache, c: Cache, parent: u64, dir: seq<DirEntry>, h: DirEntry -> WireFh, shown: seq<Shown>, all: nat,
                   size: nat, f: FAttr, b: seq<DirEntry>, es: seq<PlusEntry>, buf: bool, esize: string -> nat)
    requires Listed(c0, c, parent, dir, h, shown, all) && all == Leading(EntrySizes(dir, esize), size)
    requires EntriesFor(es, b, h, esize) && b <= dir[|shown|..] && (|shown| < |dir| ==> b != [])
    ensures parent in c.recs && Room(c, |es|)
    ensures var (c', out) := PlusStep(c, parent, size, Plus(f, es, buf));
            && (Servable(c, parent, f, es, buf) ==> out.Listing?)
            && (out.Error? || out.Listing?)
            && (out.Error? ==> Later(c0, c') && Counted(c0, c', shown) && ShownFrom(shown, dir, 0, h, c'))
            && (out.Listing? ==> Shows(c0, c', parent, dir, h, shown, out.shown, all))
  {
    BudgetGrows(1, all - |shown| + 1, |dir|);
    assert Kept(c0, c, parent);
    PlusReplyShows(c, parent, size, f, es, buf, b, h, esize);
    PlusEffect(c, parent, size, Plus(f, es, buf));
    var op := ReaddirPlus(parent, size, Plus(f, es, buf));
    var (c', out) := PlusStep(c, parent, size, Plus(f, es, buf));
    if out.Listing? {
      ListedNext(c0, c, c', parent, dir, h, shown, all, op, out.shown, b, esize, size);
    } else {
      LaterTrans(c0, c, c');
      ShownLater(shown, dir, h, c, c');
      CountedMore(c0, c, c', shown, [], op, out);
      assert shown + [] == shown;
    }
  }

  /** One reply of a listing is servable: usable entries, a buffer, attributes that are the directory's. */
  ghost predicate ServableCall(c0: Cache, parent: u64, dir: seq<DirEntry>, f: FAttr, detail: DirEntry -> PlusEntry, buf: bool) {
    && buf && (forall e :: e in dir ==> Usable(detail(e)))
    && parent in c0.recs && Refresh(c0.recs[parent].key.fileid, c0.recs[parent].attrs, f).1 == 0
  }

  ghost predicate AlwaysServable(c0: Cache, parent: u64, dir: seq<DirEntry>, attrs: nat -> FAttr,
                                 detail: nat -> DirEntry -> PlusEntry, buf: nat -> bool) {
    forall k: nat {:trigger buf(k)} :: ServableCall(c0, parent, dir, attrs(k), detail(k), buf(k))
  }

  lemma ServableAt(c0: Cache, c: Cache, parent: u64, dir: seq<DirEntry>, f: FAttr, detail: DirEntry -> PlusEntry,
                   buf: bool, pos: nat, b: seq<DirEntry>)
    requires ServableCall(c0, parent, dir, f, detail, buf) && Later(c0, c)
    requires pos <= |dir| && b <= dir[pos..]
    ensures Servable(c, parent, f, DetailAll(b, detail), buf)
  {
    assert Kept(c0, c, parent);
    forall j | 0 <= j < |b| ensures Usable(DetailAll(b, detail)[j]) {
      assert b[j] == dir[pos..][j] == dir[pos + j];
    }
  }

  /** One request of a listing that has shown `shown`. */
  method PlusTurn(sb: Super, parent: u64, dir: seq<DirEntry>, dirVerf: u64, verf: u64, cookie: u64, n: nat,
                  f: FAttr, detail: DirEntry -> PlusEntry, buf: bool, size: nat,
                  ghost h: DirEntry -> WireFh, ghost esize: string -> nat, ghost c0: Cache, ghost shown: seq<Shown>, ghost all: nat)
    returns (out: Outcome)
    requires sb.Valid() && Listed(c0, sb.cache, parent, dir, h, shown, all) && all == Leading(EntrySizes(dir, esize), size)
    requires ValidDir(dir) && Details(detail, dir, h, esize)
    requires cookie == CookieAt(dir, |shown|) && (|shown| > 0 ==> verf == dirVerf)
    modifies sb, sb.idTable, sb.fhTable
    ensures sb.Valid() && (out.Error? || out.Listing?)
    ensures out.Error? ==> Later(c0, sb.cache) && Counted(c0, sb.cache, shown) && ShownFrom(shown, dir, 0, h, sb.cache)
    ensures out.Listing? ==> Shows(c0, sb.cache, parent, dir, h, shown, out.shown, all)
    ensures ServableCall(c0, parent, dir, f, detail, buf) ==> out.Listing?
  {
    AnswerAt(dir, dirVerf, |shown|, verf, n);
    var b := Answer(dir, dirVerf, cookie, verf, n).value;
    var es := DetailAll(b, detail);
    DetailsFor(detail, dir, |shown|, b, h, esize);
    ListedMore(c0, sb.cache, parent, dir, h, shown, all, size, f, b, es, buf, esize);
    if ServableCall(c0, parent, dir, f, detail, buf) {
      ServableAt(c0, sb.cache, parent, dir, f, detail, buf, |shown|, b);
    }
    out := PlusOp(sb, parent, size, Plus(f, es, buf));
  }

  lemma ListedFirst(c: Cache, parent: u64, dir: seq<DirEntry>, h: DirEntry -> WireFh, all: nat)
    requires Inv(c) && parent in c.recs && Room(c, Budget(|dir| + 1, |dir|)) && all <= |dir|
    ensures Listed(c, c, parent, dir, h, [], all)
  {
    BudgetGrows(all + 1, |dir| + 1, |dir|);
    forall i: u64 ensures Cong(RefsOf(c, i), RefsOf(c, i) + EntryCount([], i)) {
      CongSame(RefsOf(c, i), RefsOf(c, i));
    }
  }

  /** The kernel's listing by READDIRPLUS, on the hash tables: from cookie zero, resuming at the last cookie shown,
      until an empty reply or an error. The entries come in order, each once and with the inode of its object; the
      listing stops early only on an error, and every inode's count has gone up by the entries shown for it, also
      then. */
  method ListDirectoryPlus(sb: Super, parent: u64, dir: seq<DirEntry>, dirVerf: u64, verf0: u64, batch: nat -> nat,
                           attrs: nat -> FAttr, detail: nat -> DirEntry -> PlusEntry, buf: nat -> bool, size: nat,
                           ghost h: DirEntry -> WireFh, ghost esize: string -> nat)
    returns (shown: seq<Shown>, failed: bool)
    requires sb.Valid() && parent in sb.cache.recs && ValidDir(dir) && Room(sb.cache, Budget(|dir| + 1, |dir|))
    requires forall k {:trigger detail(k)} :: Details(detail(k), dir, h, esize)
    modifies sb, sb.idTable, sb.fhTable
    ensures sb.Valid() && Later(old(sb.cache), sb.cache)
    ensures ShownFrom(shown, dir, 0, h, sb.cache) && Counted(old(sb.cache), sb.cache, shown)
    ensures !failed ==> |shown| == Leading(EntrySizes(dir, esize), size)
    ensures AlwaysServable(old(sb.cache), parent, dir, attrs, detail, buf) ==> !failed
  {
    shown, failed := [], false;
    var cookie, verf, calls := 0, verf0, 0;
    ghost var c0, all := sb.cache, Leading(EntrySizes(dir, esize), size);
    ListedFirst(c0, parent, dir, h, all);
    while true
      invariant sb.Valid() && Listed(c0, sb.cache, parent, dir, h, shown, all) && !failed
      invariant cookie == CookieAt(dir, |shown|) && (|shown| > 0 ==> verf == dirVerf)
      decreases all - |shown|
    {
      var out := PlusTurn(sb, parent, dir, dirVerf, verf, cookie, batch(calls), attrs(calls), detail(calls), buf(calls), size,
                          h, esize, c0, shown, all);
      if AlwaysServable(c0, parent, dir, attrs, detail, buf) {
        assert buf(calls);
      }
      if out.Error? {
        failed := true;
        return;
      }
      if out.shown == [] {
        assert shown + [] == shown;
        return;
      }
      cookie, verf, calls := out.shown[|out.shown| - 1].off, dirVerf, calls + 1;
      shown := shown + out.shown;
    }
  }
}
