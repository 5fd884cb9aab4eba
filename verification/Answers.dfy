/** What each request is answered with and what it does to the cache, told by the fields of the server's reply. */
module Answers {
  import opened Basics
  import opened Attributes
  import opened CacheSpec
  import opened FileHandle
  import opened Packing
  import opened FuseSpec
  import opened FuseRuns

  /** Only record `i` may differ. */
  ghost predicate OnlyAt(c: Cache, c': Cache, i: u64) {
    && c'.curr == c.curr && c'.index == c.index && c'.recs.Keys == c.recs.Keys
    && forall j :: j in c.recs && j != i ==> c'.recs[j] == c.recs[j]
  }

  /** Record `i` is refreshed from `f`: its attributes are the reply's if fileid and type agree, else unchanged. */
  ghost predicate RefreshedAt(c: Cache, c': Cache, i: u64, f: FAttr) {
    && OnlyAt(c, c', i) && i in c.recs && i in c'.recs
    && c'.recs[i].key == c.recs[i].key && c'.recs[i].refs == c.recs[i].refs
    && c'.recs[i].count == c.recs[i].count && c'.recs[i].freed == c.recs[i].freed
    && (if f.valid && c.recs[i].key.fileid == f.fileid && SameType(c.recs[i].attrs.mode, f.mode)
        then Carries(c'.recs[i].attrs, f) else c'.recs[i].attrs == c.recs[i].attrs)
  }

  /** The attributes of a reply are of another object. */
  ghost predicate Foreign(c: Cache, i: u64, f: FAttr) {
    i in c.recs && f.valid && (c.recs[i].key.fileid != f.fileid || !SameType(c.recs[i].attrs.mode, f.mode))
  }

  lemma RefreshedMeans(c: Cache, i: u64, f: FAttr)
    requires i in c.recs
    ensures RefreshedAt(c, SetRec(c, i, Refreshed(c.recs[i], f)), i, f)
    ensures var status := Refresh(c.recs[i].key.fileid, c.recs[i].attrs, f).1;
            if Foreign(c, i, f) then status == -116 else status == 0
  {
    RefreshMeans(c.recs[i].key.fileid, c.recs[i].attrs, f);
  }

  // ----- LOOKUP -----

  /** An unknown directory, an RPC error, an invalid or unlinked reply, no memory: each with its error and no change.
      Otherwise the entry of the object's inode, with one reference more. */
  lemma LookupAnswers(c: Cache, parent: u64, reply: Reply)
    requires Inv(c) && Room(c, 1)
    ensures var (c', out) := LookupStep(c, parent, reply);
            if parent !in c.recs then out == Error(2) && c' == c
            else match reply
              case RpcError(e) => out == Error(e) && c' == c
              case Object(fh, f, mem) =>
                var k := Key(f.fileid, fh);
                if !f.valid || f.nlink == 0 then out == Error(2) && c' == c
                else if k !in c.index && !mem then out == Error(12) && c' == c
                else out.Entry? && Obtained(c, c', k, f, out.ino, (CountOf(c, k) + 1) % 0x1_0000_0000_0000_0000)
  {
    if parent in c.recs && reply.Object? {
      RoomCanGet(c, reply.fh, reply.fattr);
      FhGetAnswers(c, reply.fh, reply.fattr, reply.mem);
    }
  }

  // ----- the create-like requests -----

  /** Create makes the caller the owner of the cached directory; nothing else changes. */
  ghost predicate OwnerTaken(c: Cache, c': Cache, parent: u64, kind: Kind) {
    && OnlyAt(c, c', parent) && parent in c.recs && parent in c'.recs
    && (!kind.File? ==> c'.recs[parent] == c.recs[parent])
    && (kind.File? ==> c'.recs[parent] == c.recs[parent].(attrs := c'.recs[parent].attrs))
    && (kind.File? ==> var a, a' := c.recs[parent].attrs, c'.recs[parent].attrs;
                       && a'.uid == kind.uid && a'.gid == kind.gid && a'.mode == a.mode && a'.nlink == a.nlink && a'.size == a.size
                       && a'.blocks == a.blocks && a'.atime == a.atime && a'.mtime == a.mtime && a'.ctime == a.ctime)
  }

  lemma OwnerMeans(c: Cache, parent: u64, kind: Kind)
    requires parent in c.recs
    ensures OwnerTaken(c, SetOwner(c, parent, kind), parent, kind)
  {
  }

  /** The last part of a create: `c1` is the cache with the inode obtained, `before` its count until then. */
  ghost predicate Created(c1: Cache, c': Cache, i: u64, before: int, kind: Kind, out: Outcome) {
    if kind.File? && kind.exclusive.Some? && kind.exclusive.value.errno != 0 then out == Error(kind.exclusive.value.errno) && c' == c1
    else
      && (out == if before != 0 then Crash else Entry(i))
      && i in c'.recs && c'.recs[i].refs == 1 && OnlyAt(c1, c', i) && i in c1.recs
      && c'.recs[i] == c1.recs[i].(refs := 1, attrs := c'.recs[i].attrs)
      && (if kind.File? && kind.exclusive.Some? && kind.exclusive.value.fattr.valid
             && c1.recs[i].key.fileid == kind.exclusive.value.fattr.fileid
             && SameType(c1.recs[i].attrs.mode, kind.exclusive.value.fattr.mode)
          then Carries(c'.recs[i].attrs, kind.exclusive.value.fattr) else c'.recs[i].attrs == c1.recs[i].attrs)
  }

  /** No answer or ENOENT in an unknown directory; otherwise the owner is taken, and then an RPC error, an invalid or
      unlinked reply, no memory, each with its error, or the object's inode, handed out with count 1. */
  lemma CreateAnswers(c: Cache, parent: u64, kind: Kind, reply: Reply)
    requires Inv(c) && Room(c, 1)
    ensures var (c', out) := CreateStep(c, parent, kind, reply);
            if parent !in c.recs then c' == c && out == if kind.File? || kind.Mkdir? then NoReply else Error(2)
            else exists c0 :: OwnerTaken(c, c0, parent, kind) && CreateRest(c0, c', kind, reply, out)
  {
    if parent in c.recs {
      OwnerMeans(c, parent, kind);
      SetOwnerFacts(c, parent, kind);
      var c0 := SetOwner(c, parent, kind);
      var (c', out) := CreateStep(c, parent, kind, reply);
      CreateRestMeans(c, parent, kind, reply);
      assert OwnerTaken(c, c0, parent, kind) && CreateRest(c0, c', kind, reply, out);
    }
  }

  ghost predicate CreateRest(c0: Cache, c': Cache, kind: Kind, reply: Reply, out: Outcome) {
    match reply
    case RpcError(e) => out == Error(e) && c' == c0
    case Object(fh, f, mem) =>
      var k := Key(f.fileid, fh);
      if !f.valid || f.nlink == 0 then out == Error(2) && c' == c0
      else if k !in c0.index && !mem then out == Error(12) && c' == c0
      else exists c1, i :: Obtained(c0, c1, k, f, i, CountOf(c0, k)) && Created(c1, c', i, CountOf(c0, k), kind, out)
  }

  lemma CreatedMeans(c1: Cache, i: u64, kind: Kind)
    requires Inv(c1) && i in c1.recs
    ensures i in Adjusted(c1, i, kind).recs
    ensures SetAttrError(kind) != 0 ==> Created(c1, c1, i, c1.recs[i].refs, kind, Error(SetAttrError(kind)))
    ensures SetAttrError(kind) == 0 ==>
              Created(c1, SetRefs(Adjusted(c1, i, kind), i, 1), i, c1.recs[i].refs, kind, if c1.recs[i].refs != 0 then Crash else Entry(i))
  {
    AdjustedFacts(c1, i, kind);
    if kind.File? && kind.exclusive.Some? {
      RefreshedMeans(c1, i, kind.exclusive.value.fattr);
    }
  }

  lemma CreateRestMeans(c: Cache, parent: u64, kind: Kind, reply: Reply)
    requires Inv(c) && Room(c, 1) && parent in c.recs
    ensures var (c', out) := CreateStep(c, parent, kind, reply); CreateRest(SetOwner(c, parent, kind), c', kind, reply, out)
  {
    SetOwnerFacts(c, parent, kind);
    var c0 := SetOwner(c, parent, kind);
    if reply.Object? {
      RoomCanGet(c0, reply.fh, reply.fattr);
      FhGetAnswers(c0, reply.fh, reply.fattr, reply.mem);
      GetFacts(c0, reply.fh, reply.fattr, reply.mem);
      var (c1, got) := Get(c0, reply.fh, reply.fattr, reply.mem);
      if got.Got? {
        CreatedMeans(c1, got.ino, kind);
        AdjustedFacts(c1, got.ino, kind);
      }
    }
  }

  // ----- FORGET and LINK -----

  /** The count falls by `n`, and at zero `i_count` falls by one; an unknown inode or too large an `n` is fatal. */
  lemma ForgetAnswers(c: Cache, ino: u64, n: u64)
    requires Inv(c)
    ensures var (c', out) := ForgetStep(c, ino, n);
            if ino !in c.recs || c.recs[ino].refs < n then out == Crash && c' == c
            else
              && out == Done && OnlyAt(c, c', ino) && ino in c'.recs
              && c'.recs[ino] == c.recs[ino].(refs := c'.recs[ino].refs, count := c'.recs[ino].count)
              && c'.recs[ino].refs == c.recs[ino].refs - n
              && c'.recs[ino].count == c.recs[ino].count - (if c.recs[ino].refs == n then 1 else 0)
  {
    if ino in c.recs {
      assert GoodRec(c, ino);
    }
  }

  /** An unknown inode is never answered; an RPC error or foreign attributes, each with its error and no change; otherwise
      the inode is refreshed and named, its count unchanged. */
  lemma LinkAnswers(c: Cache, ino: u64, parent: u64, errno: int, f: FAttr)
    ensures var (c', out) := LinkStep(c, ino, parent, errno, f);
            if parent !in c.recs || ino !in c.recs then out == NoReply && c' == c
            else if errno != 0 then out == Error(errno) && c' == c
            else if Foreign(c, ino, f) then out == Error(-116) && c' == c
            else out == Entry(ino) && RefreshedAt(c, c', ino, f)
  {
    if ino in c.recs {
      RefreshedMeans(c, ino, f);
    }
  }

  // ----- READDIRPLUS -----

  /** The loop over the entries of a reply, one entry at a time: after a failure nothing happens; a missing handle is
      ENOENT; otherwise the entry's object is obtained like that of a lookup, without a reference. */
  lemma EntriesAnswer(c: Cache, es: seq<PlusEntry>, e: PlusEntry)
    requires Inv(c) && Room(c, |es| + 1)
    ensures GetAll(c, []) == (c, [], Got(0))
    ensures var (c1, inos, last) := GetAll(c, es);
            var (c', inos', last') := GetAll(c, es + [e]);
            if last.Failed? then c' == c1 && inos' == inos && last' == last
            else if e.handle.None? then c' == c1 && inos' == inos && last' == Failed(2)
            else
              var k := Key(e.fattr.fileid, e.handle.value);
              if !e.fattr.valid || e.fattr.nlink == 0 then c' == c1 && inos' == inos && last' == Failed(2)
              else if k !in c1.index && !e.mem then c' == c1 && inos' == inos && last' == Failed(12)
              else last'.Got? && inos' == inos + [last'.ino] && Obtained(c1, c', k, e.fattr, last'.ino, CountOf(c1, k))
  {
    assert (es + [e])[..|es|] == es;
    var (c1, inos, last) := GetAll(c, es);
    if last.Got? && e.handle.Some? {
      RoomCanGet(c1, e.handle.value, e.fattr);
      FhGetAnswers(c1, e.handle.value, e.fattr, e.mem);
    }
  }

  /** Putting the inodes obtained lowers each `i_count` by the times it was obtained, and changes nothing else. */
  lemma {:induction false} PutAllMeans(c: Cache, inos: seq<u64>, i: u64)
    requires Inv(c) && (forall j :: j in inos ==> j in c.recs) && i in c.recs
    ensures var c' := PutAll(c, inos);
            && c'.curr == c.curr && c'.index == c.index
            && c'.recs[i] == c.recs[i].(count := c.recs[i].count - Occurrences(inos, i))
  {
    assert GoodRec(c, i);
    if inos != [] {
      PutAllMeans(c, inos[..|inos| - 1], i);
      assert GoodRec(c, inos[|inos| - 1]);
      PutAllFacts(c, inos[..|inos| - 1]);
      assert GoodRec(PutAll(c, inos[..|inos| - 1]), inos[|inos| - 1]);
    }
  }

  /** References change nothing but the lookup counts. */
  lemma {:induction false} AddRefsMeans(c: Cache, inos: seq<u64>, i: u64)
    requires (forall j :: j in inos ==> j in c.recs) && i in c.recs
    ensures var c' := AddRefs(c, inos);
            c'.curr == c.curr && c'.index == c.index && c'.recs[i] == c.recs[i].(refs := c'.recs[i].refs)
  {
    if inos != [] {
      AddRefsMeans(c, inos[..|inos| - 1], i);
    }
  }

  /** An unknown directory is fatal; an RPC error or foreign attributes, each with its error and no change; otherwise the
      directory is refreshed and the entries decide. */
  lemma PlusAnswers(c: Cache, parent: u64, size: nat, plus: PlusReply)
    requires Inv(c) && (plus.Plus? ==> Room(c, |plus.entries|))
    ensures var (c', out) := PlusStep(c, parent, size, plus);
            if parent !in c.recs then out == Crash && c' == c
            else match plus
              case PlusError(e) => out == Error(e) && c' == c
              case Plus(f, es, buf) =>
                if Foreign(c, parent, f) then out == Error(-116) && c' == c
                else exists c0 :: RefreshedAt(c, c0, parent, f) && Inv(c0) && Room(c0, |es|) && EntriesDecide(c0, c', size, es, buf, out)
  {
    if parent in c.recs && plus.Plus? {
      RefreshedMeans(c, parent, plus.dir);
      RefreshFacts(c, parent, plus.dir);
      var c0 := SetRec(c, parent, Refreshed(c.recs[parent], plus.dir));
      if !Foreign(c, parent, plus.dir) {
        var (c', out) := PlusStep(c, parent, size, plus);
        assert RefreshedAt(c, c0, parent, plus.dir) && EntriesDecide(c0, c', size, plus.entries, plus.buf, out);
      }
    }
  }

  /** The first failing entry's error, with all inodes obtained put; ENOMEM without a buffer; else the listing. */
  ghost predicate EntriesDecide(c0: Cache, c': Cache, size: nat, es: seq<PlusEntry>, buf: bool, out: Outcome)
    requires Inv(c0) && Room(c0, |es|)
  {
    var (c1, inos, last) := GetAll(c0, es);
    if last.Failed? then out == Error(last.errno) && c' == PutAll(c1, inos)
    else if !buf then out == Error(12) && c' == c1
    else
      && out.Listing? && |out.shown| == Fits(Sizes(es), size) && c' == AddRefs(c1, inos[..|out.shown|])
      && forall j {:trigger out.shown[j]} :: 0 <= j < |out.shown| ==>
           && out.shown[j].ino == inos[j] && out.shown[j].off == es[j].cookie
           && out.shown[j].name == if |es[j].name| <= 255 then es[j].name else es[j].name[..255]
  }
}
