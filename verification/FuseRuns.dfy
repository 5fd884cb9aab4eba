/** What holds over every run of the FUSE operations. */
module FuseRuns {
  import opened Basics
  import opened Attributes
  import opened CacheSpec
  import opened FileHandle
  import opened Packing
  import opened FuseSpec

  // ----- one step -----

  /** How many inodes an operation can add. */
  function Need(op: Op): nat {
    match op
    case Lookup(_, _) => 1
    case Create(_, _, _) => 1
    case ReaddirPlus(_, _, Plus(_, es, _)) => |es|
    case _ => 0
  }

  ghost function Step(c: Cache, op: Op): (Cache, Outcome)
    requires Inv(c) && Room(c, Need(op))
  {
    match op
    case Lookup(parent, reply) => LookupStep(c, parent, reply)
    case Create(parent, kind, reply) => CreateStep(c, parent, kind, reply)
    case ReaddirPlus(parent, size, plus) => PlusStep(c, parent, size, plus)
    case Forget(ino, n) => ForgetStep(c, ino, n)
    case Link(ino, parent, errno, fattr) => LinkStep(c, ino, parent, errno, fattr)
  }

  predicate IsDot(name: string) {
    name == "." || name == ".."
  }

  /** Entries of a listing for inode `i`, those named "." or ".." and the others separately. */
  function CountShown(shown: seq<Shown>, i: u64, dots: bool): nat {
    if shown == [] then 0
    else
      var last := shown[|shown| - 1];
      CountShown(shown[..|shown| - 1], i, dots) + if last.ino == i && IsDot(last.name) == dots then 1 else 0
  }

  /** References the daemon counts as handed out by a reply. */
  function Given(op: Op, out: Outcome, i: u64): nat {
    match out
    case Entry(j) => if op.Link? || i != j then 0 else 1
    case Listing(shown) => CountShown(shown, i, true) + CountShown(shown, i, false)
    case _ => 0
  }

  function Taken(op: Op, i: u64): nat {
    if op.Forget? && op.ino == i then op.n else 0
  }

  function Occurrences(inos: seq<u64>, i: u64): nat {
    if inos == [] then 0
    else Occurrences(inos[..|inos| - 1], i) + if inos[|inos| - 1] == i then 1 else 0
  }

  lemma {:induction false} ShownCounts(es: seq<PlusEntry>, inos: seq<u64>, i: u64)
    requires |inos| <= |es|
    ensures CountShown(ShownOf(es, inos), i, true) + CountShown(ShownOf(es, inos), i, false) == Occurrences(inos, i)
  {
    if inos != [] {
      var n := |inos| - 1;
      assert ShownOf(es, inos)[..n] == ShownOf(es, inos[..n]);
      ShownCounts(es, inos[..n], i);
    }
  }

  ghost function Times64(k: int): int {
    0x1_0000_0000_0000_0000 * k
  }

  /** Equal modulo 2^64. */
  ghost predicate Cong(x: int, y: int) {
    exists k :: y - x == Times64(k)
  }

  lemma CongSame(x: int, y: int)
    requires x == y
    ensures Cong(x, y)
  {
    assert Times64(0) == 0;
  }

  lemma CongTrans(x: int, y: int, y': int, z: int)
    requires Cong(x, y) && Cong(y', z)
    ensures Cong(x + y' - y, z)
  {
    var k :| y - x == Times64(k);
    var j :| z - y' == Times64(j);
    assert z - (x + y' - y) == Times64(k + j);
  }

  lemma CongShift(x: int, y: int, d: int)
    requires Cong(x, y)
    ensures Cong(x + d, y + d)
  {
    var k :| y - x == Times64(k);
    assert y + d - (x + d) == Times64(k);
  }

  lemma CongInc(x: u64)
    ensures Cong(Inc(x), x + 1)
  {
    assert Times64(0) == 0 && Times64(1) == 0x1_0000_0000_0000_0000;
  }

  /** Words that are equal modulo 2^64 are equal. */
  lemma CongWords(x: u64, y: u64)
    requires Cong(x, y)
    ensures x == y
  {
  }

  /** The count of `i` moves by what was handed out and taken back, wrapping at 64 bits. */
  ghost predicate Moved(c: Cache, c': Cache, op: Op, out: Outcome, i: u64) {
    Cong(RefsOf(c', i), RefsOf(c, i) + Given(op, out, i) - Taken(op, i))
  }

  /** The effect of an operation on the cache: nothing is lost and every count moves by what was handed out. */
  ghost predicate Effect(c: Cache, c': Cache, op: Op, out: Outcome) {
    && Inv(c') && Later(c, c') && |c'.recs| <= |c.recs| + Need(op)
    && (out != Crash ==> forall i {:trigger Moved(c, c', op, out, i)} :: Moved(c, c', op, out, i))
  }

  lemma SetRefsFacts(c: Cache, i: u64, refs: u64)
    requires Inv(c) && i in c.recs
    ensures var c' := SetRefs(c, i, refs);
            && Inv(c') && Later(c, c') && |c'.recs| == |c.recs|
            && forall j :: RefsOf(c', j) == if j == i then refs else RefsOf(c, j)
  {
    assert GoodRec(c, i);
    SetKeepsInv(c, i, c.recs[i].(refs := refs));
    var c' := SetRefs(c, i, refs);
    assert c'.recs.Keys == c.recs.Keys && |c.recs.Keys| == |c.recs| && |c'.recs.Keys| == |c'.recs|;
  }

  lemma LookupEffect(c: Cache, parent: u64, reply: Reply)
    requires Inv(c) && Room(c, 1)
    ensures var (c', out) := LookupStep(c, parent, reply); Effect(c, c', Lookup(parent, reply), out)
  {
    if parent in c.recs && reply.Object? {
      GetFacts(c, reply.fh, reply.fattr, reply.mem);
      var (c1, got) := Get(c, reply.fh, reply.fattr, reply.mem);
      if got.Got? {
        SetRefsFacts(c1, got.ino, Inc(c1.recs[got.ino].refs));
        LaterTrans(c, c1, SetRefs(c1, got.ino, Inc(c1.recs[got.ino].refs)));
      }
    }
    var (c', out) := LookupStep(c, parent, reply);
    forall i ensures Moved(c, c', Lookup(parent, reply), out, i) {
      CongInc(RefsOf(c, i));
      CongSame(RefsOf(c, i), RefsOf(c, i));
    }
  }

  lemma CreateEffect(c: Cache, parent: u64, kind: Kind, reply: Reply)
    requires Inv(c) && Room(c, 1)
    ensures var (c', out) := CreateStep(c, parent, kind, reply); Effect(c, c', Create(parent, kind, reply), out)
  {
    if parent in c.recs {
      SetOwnerFacts(c, parent, kind);
      var c0 := SetOwner(c, parent, kind);
      if reply.Object? {
        GetFacts(c0, reply.fh, reply.fattr, reply.mem);
        var (c1, got) := Get(c0, reply.fh, reply.fattr, reply.mem);
        LaterTrans(c, c0, c1);
        if got.Got? && SetAttrError(kind) == 0 {
          AdjustedFacts(c1, got.ino, kind);
          var c2 := Adjusted(c1, got.ino, kind);
          LaterTrans(c, c1, c2);
          SetRefsFacts(c2, got.ino, 1);
          LaterTrans(c, c2, SetRefs(c2, got.ino, 1));
        }
      }
    }
    var (c', out) := CreateStep(c, parent, kind, reply);
    if out != Crash {
      forall i ensures Moved(c, c', Create(parent, kind, reply), out, i) {
        CongSame(RefsOf(c', i), RefsOf(c', i));
      }
    }
  }

  lemma ForgetEffect(c: Cache, ino: u64, n: u64)
    requires Inv(c)
    ensures var (c', out) := ForgetStep(c, ino, n); Effect(c, c', Forget(ino, n), out)
  {
    if ino in c.recs && n <= c.recs[ino].refs {
      var c1 := SetRefs(c, ino, c.recs[ino].refs - n);
      SetRefsFacts(c, ino, c.recs[ino].refs - n);
      assert GoodRec(c1, ino);
      SetKeepsInv(c1, ino, Put(c1.recs[ino]));
      var c2 := SetRec(c1, ino, Put(c1.recs[ino]));
      assert c2.recs.Keys == c1.recs.Keys && |c1.recs.Keys| == |c1.recs| && |c2.recs.Keys| == |c2.recs|;
      LaterTrans(c, c1, c2);
      forall i ensures Moved(c, ForgetStep(c, ino, n).0, Forget(ino, n), Done, i) {
        CongSame(RefsOf(ForgetStep(c, ino, n).0, i), RefsOf(ForgetStep(c, ino, n).0, i));
      }
    }
  }

  lemma {:induction false} PutAllFacts(c: Cache, inos: seq<u64>)
    requires Inv(c) && forall i :: i in inos ==> i in c.recs
    ensures var c' := PutAll(c, inos); Inv(c') && Later(c, c') && forall i :: RefsOf(c', i) == RefsOf(c, i)
  {
    if inos != [] {
      var i := inos[|inos| - 1];
      var c1 := PutAll(c, inos[..|inos| - 1]);
      PutAllFacts(c, inos[..|inos| - 1]);
      assert GoodRec(c1, i);
      SetKeepsInv(c1, i, Put(c1.recs[i]));
      LaterTrans(c, c1, SetRec(c1, i, Put(c1.recs[i])));
    }
  }

  lemma {:induction false} AddRefsFacts(c: Cache, inos: seq<u64>)
    requires Inv(c) && forall i :: i in inos ==> i in c.recs
    ensures var c' := AddRefs(c, inos); Inv(c') && Later(c, c')
  {
    if inos != [] {
      var i := inos[|inos| - 1];
      var c1 := AddRefs(c, inos[..|inos| - 1]);
      AddRefsFacts(c, inos[..|inos| - 1]);
      SetRefsFacts(c1, i, Inc(c1.recs[i].refs));
      LaterTrans(c, c1, SetRefs(c1, i, Inc(c1.recs[i].refs)));
    }
  }

  lemma {:induction false} AddRefsCount(c: Cache, inos: seq<u64>, i: u64)
    requires forall i :: i in inos ==> i in c.recs
    ensures Cong(RefsOf(AddRefs(c, inos), i), RefsOf(c, i) + Occurrences(inos, i))
  {
    if inos == [] {
      CongSame(RefsOf(c, i), RefsOf(c, i));
    } else {
      var c1 := AddRefs(c, inos[..|inos| - 1]);
      AddRefsCount(c, inos[..|inos| - 1], i);
      if i == inos[|inos| - 1] {
        CongInc(RefsOf(c1, i));
        CongTrans(Inc(RefsOf(c1, i)), RefsOf(c1, i) + 1, RefsOf(c1, i), RefsOf(c, i) + Occurrences(inos[..|inos| - 1], i));
        CongShift(Inc(RefsOf(c1, i)) - 1, RefsOf(c, i) + Occurrences(inos[..|inos| - 1], i), 1);
      }
    }
  }

  lemma ListingMoves(c1: Cache, es: seq<PlusEntry>, inos: seq<u64>, op: Op, i: u64)
    requires (forall i :: i in inos ==> i in c1.recs) && |inos| <= |es| && op.ReaddirPlus?
    ensures Moved(c1, AddRefs(c1, inos), op, Listing(ShownOf(es, inos)), i)
  {
    AddRefsCount(c1, inos, i);
    ShownCounts(es, inos, i);
  }

  lemma ListingEffect(c1: Cache, es: seq<PlusEntry>, inos: seq<u64>, op: Op)
    requires Inv(c1) && (forall i :: i in inos ==> i in c1.recs) && |inos| <= |es| && op.ReaddirPlus?
    ensures Effect(c1, AddRefs(c1, inos), op, Listing(ShownOf(es, inos)))
  {
    AddRefsFacts(c1, inos);
    SameSize(c1, AddRefs(c1, inos));
    forall i ensures Moved(c1, AddRefs(c1, inos), op, Listing(ShownOf(es, inos)), i) {
      ListingMoves(c1, es, inos, op, i);
    }
  }

  lemma FailureEffect(c1: Cache, inos: seq<u64>, op: Op, errno: int)
    requires Inv(c1) && (forall i :: i in inos ==> i in c1.recs) && op.ReaddirPlus?
    ensures Effect(c1, PutAll(c1, inos), op, Error(errno))
  {
    PutAllFacts(c1, inos);
    SameSize(c1, PutAll(c1, inos));
    forall i ensures Moved(c1, PutAll(c1, inos), op, Error(errno), i) {
      CongSame(RefsOf(c1, i), RefsOf(c1, i));
    }
  }

  /** An effect after a change of attributes and added inodes is an effect of the whole. */
  lemma EffectAfter(c: Cache, c1: Cache, c': Cache, op: Op, out: Outcome)
    requires Inv(c) && Later(c, c1) && |c1.recs| <= |c.recs| + Need(op) && (forall i :: RefsOf(c1, i) == RefsOf(c, i))
    requires Effect(c1, c', op, out) && c1.recs.Keys == c'.recs.Keys
    ensures Effect(c, c', op, out)
  {
    LaterTrans(c, c1, c');
    SameSize(c1, c');
    if out != Crash {
      forall i ensures Moved(c, c', op, out, i) { assert Moved(c1, c', op, out, i); }
    }
  }

  lemma PlusEffect(c: Cache, parent: u64, size: nat, plus: PlusReply)
    requires Inv(c) && Room(c, Need(ReaddirPlus(parent, size, plus)))
    ensures var (c', out) := PlusStep(c, parent, size, plus); Effect(c, c', ReaddirPlus(parent, size, plus), out)
  {
    var op := ReaddirPlus(parent, size, plus);
    var (c', out) := PlusStep(c, parent, size, plus);
    if parent in c.recs && plus.Plus? && Refresh(c.recs[parent].key.fileid, c.recs[parent].attrs, plus.dir).1 == 0 {
      RefreshFacts(c, parent, plus.dir);
      var c0 := SetRec(c, parent, Refreshed(c.recs[parent], plus.dir));
      var (c1, inos, last) := GetAll(c0, plus.entries);
      LaterTrans(c, c0, c1);
      if last.Failed? {
        FailureEffect(c1, inos, op, last.errno);
      } else if plus.buf {
        ListingEffect(c1, plus.entries, inos[..Fits(Sizes(plus.entries), size)], op);
      } else {
        FailureEffect(c1, [], op, ENOMEM);
      }
      EffectAfter(c, c1, c', op, out);
    } else {
      SameEffect(c, op, out);
    }
  }

  lemma SameEffect(c: Cache, op: Op, out: Outcome)
    requires Inv(c) && (out.Error? || out == NoReply || out == Crash) && !op.Forget?
    ensures Effect(c, c, op, out)
  {
    forall i ensures Moved(c, c, op, out, i) {
      CongSame(RefsOf(c, i), RefsOf(c, i));
    }
  }

  lemma LinkEffect(c: Cache, ino: u64, parent: u64, errno: int, fattr: FAttr)
    requires Inv(c)
    ensures var (c', out) := LinkStep(c, ino, parent, errno, fattr); Effect(c, c', Link(ino, parent, errno, fattr), out)
  {
    var op := Link(ino, parent, errno, fattr);
    var (c', out) := LinkStep(c, ino, parent, errno, fattr);
    if out.Error? || out == NoReply {
      SameEffect(c, op, out);
    } else {
      RefreshFacts(c, ino, fattr);
      forall i ensures Moved(c, c', op, out, i) {
        CongSame(RefsOf(c, i), RefsOf(c, i));
      }
    }
  }

  lemma SameSize(c: Cache, c': Cache)
    requires c.recs.Keys == c'.recs.Keys
    ensures |c.recs| == |c'.recs|
  {
    assert |c.recs| == |c.recs.Keys| && |c'.recs| == |c'.recs.Keys|;
  }

  lemma StepEffect(c: Cache, op: Op)
    requires Inv(c) && Room(c, Need(op))
    ensures var (c', out) := Step(c, op); Effect(c, c', op, out)
  {
    match op
    case Lookup(parent, reply) => LookupEffect(c, parent, reply);
    case Create(parent, kind, reply) => CreateEffect(c, parent, kind, reply);
    case ReaddirPlus(parent, size, plus) => PlusEffect(c, parent, size, plus);
    case Forget(ino, n) => ForgetEffect(c, ino, n);
    case Link(ino, parent, errno, fattr) => LinkEffect(c, ino, parent, errno, fattr);
  }

  // ----- runs -----

  datatype Event = Event(op: Op, out: Outcome)

  datatype World = World(cache: Cache, trace: seq<Event>, crashed: bool)

  function NeedAll(ops: seq<Op>): nat {
    if ops == [] then 0 else NeedAll(ops[..|ops| - 1]) + Need(ops[|ops| - 1])
  }

  /** One more request; nothing happens after a failed assertion. */
  ghost function Next(w: World, op: Op): (r: World)
    requires Inv(w.cache) && Room(w.cache, Need(op))
    ensures Inv(r.cache) && Later(w.cache, r.cache) && |r.cache.recs| <= |w.cache.recs| + Need(op)
  {
    if w.crashed then w
    else
      StepEffect(w.cache, op);
      var (c, out) := Step(w.cache, op);
      World(c, w.trace + [Event(op, out)], out == Crash)
  }

  /** A run. Its cache stays consistent, loses no inode, and every inode keeps its key and file type. */
  ghost function Run(w: World, ops: seq<Op>): (r: World)
    requires Inv(w.cache) && Room(w.cache, NeedAll(ops))
    ensures Inv(r.cache) && Later(w.cache, r.cache) && |r.cache.recs| <= |w.cache.recs| + NeedAll(ops)
  {
    if ops == [] then w
    else
      var w1 := Run(w, ops[..|ops| - 1]);
      var w2 := Next(w1, ops[|ops| - 1]);
      LaterTrans(w.cache, w1.cache, w2.cache);
      w2
  }

  /** The mounted file system: the root inode, with the reference `hsx_fuse_init` gives it. */
  ghost function Mounted(fh: seq<byte>, f: FAttr): (w: World)
    requires f.valid && f.nlink != 0
    ensures Inv(w.cache) && w.cache.recs.Keys == {1} && |w.cache.recs| == 1 && w.trace == [] && !w.crashed
    ensures w.cache.recs[1].key == Key(f.fileid, fh) && w.cache.recs[1].refs == 1 && w.cache.recs[1].attrs == FromReply(f)
  {
    var (c, _) := Get(EMPTY, fh, f, true);
    GetFacts(EMPTY, fh, f, true);
    SetRefsFacts(c, 1, 1);
    World(SetRefs(c, 1, 1), [], false)
  }

  // ----- who holds what -----

  function HandedOut(trace: seq<Event>, i: u64): nat {
    if trace == [] then 0
    else HandedOut(trace[..|trace| - 1], i) + Given(trace[|trace| - 1].op, trace[|trace| - 1].out, i)
  }

  function TakenBack(trace: seq<Event>, i: u64): nat {
    if trace == [] then 0 else TakenBack(trace[..|trace| - 1], i) + Taken(trace[|trace| - 1].op, i)
  }

  /** References handed out and not taken back, starting from the counts of `base`. */
  function Owed(base: Cache, trace: seq<Event>, i: u64): int {
    RefsOf(base, i) + HandedOut(trace, i) - TakenBack(trace, i)
  }

  /** What one reply adds to the kernel's own count: "." and ".." do not count, entries of LINK do. */
  function KernelAdds(e: Event, i: u64): nat {
    match e.out
    case Entry(j) => if i == j then 1 else 0
    case Listing(shown) => CountShown(shown, i, false)
    case _ => 0
  }

  function KernelHolds(base: Cache, trace: seq<Event>, i: u64): int {
    if trace == [] then RefsOf(base, i)
    else KernelHolds(base, trace[..|trace| - 1], i) + KernelAdds(trace[|trace| - 1], i) - Taken(trace[|trace| - 1].op, i)
  }

  function LinkReplies(trace: seq<Event>, i: u64): nat {
    if trace == [] then 0
    else
      var e := trace[|trace| - 1];
      LinkReplies(trace[..|trace| - 1], i) + if e.op.Link? && e.out == Entry(i) then 1 else 0
  }

  function DotEntries(trace: seq<Event>, i: u64): nat {
    if trace == [] then 0
    else
      var e := trace[|trace| - 1];
      DotEntries(trace[..|trace| - 1], i) + if e.out.Listing? then CountShown(e.out.shown, i, true) else 0
  }

  /** Conservation: daemon and kernel differ exactly by LINK replies and by "." and "..". */
  lemma {:induction false} KernelView(base: Cache, trace: seq<Event>, i: u64)
    ensures KernelHolds(base, trace, i) + DotEntries(trace, i) == Owed(base, trace, i) + LinkReplies(trace, i)
  {
    if trace != [] {
      KernelView(base, trace[..|trace| - 1], i);
    }
  }

  /** In every run the stored count is the number of references handed out minus those taken back. */
  lemma {:induction false} Accounting(w: World, ops: seq<Op>, i: u64)
    requires Inv(w.cache) && Room(w.cache, NeedAll(ops)) && w.trace == [] && !w.crashed
    ensures var r := Run(w, ops); !r.crashed ==> Cong(RefsOf(r.cache, i), Owed(w.cache, r.trace, i))
  {
    if ops == [] {
      CongSame(RefsOf(w.cache, i), RefsOf(w.cache, i));
    } else {
      var w1 := Run(w, ops[..|ops| - 1]);
      var r := Run(w, ops);
      if !r.crashed {
        Accounting(w, ops[..|ops| - 1], i);
        var op := ops[|ops| - 1];
        StepEffect(w1.cache, op);
        var out := Step(w1.cache, op).1;
        assert Moved(w1.cache, r.cache, op, out, i);
        var d := Given(op, out, i) - Taken(op, i);
        assert r.trace[..|r.trace| - 1] == w1.trace;
        CongShift(RefsOf(w1.cache, i), Owed(w.cache, w1.trace, i), d);
        CongTrans(RefsOf(r.cache, i), RefsOf(w1.cache, i) + d, RefsOf(w1.cache, i) + d, Owed(w.cache, w1.trace, i) + d);
      }
    }
  }

  // ----- when an assertion fails -----

  /** The stored counts are the true ones, and all of them fit a 64-bit word. */
  ghost predicate Accounted(base: Cache, w: World) {
    !w.crashed && forall i {:trigger Owed(base, w.trace, i)} :: 0 <= Owed(base, w.trace, i) == RefsOf(w.cache, i)
  }

  /** While the references fit a word, the stored count is exact. */
  lemma ExactCounts(w: World, ops: seq<Op>)
    requires Inv(w.cache) && Room(w.cache, NeedAll(ops)) && w.trace == [] && !w.crashed && !Run(w, ops).crashed
    requires forall i: u64 :: 0 <= Owed(w.cache, Run(w, ops).trace, i) <= 0xffff_ffff_ffff_ffff
    ensures Accounted(w.cache, Run(w, ops))
  {
    var r := Run(w, ops);
    forall i: u64 ensures Owed(w.cache, r.trace, i) == RefsOf(r.cache, i) {
      Accounting(w, ops, i);
      CongWords(RefsOf(r.cache, i), Owed(w.cache, r.trace, i));
    }
  }

  /** The inode a create-like reply names, when it is cached already. */
  ghost function Target(c: Cache, reply: Reply): Option<u64> {
    if reply.Object? && reply.fattr.valid && reply.fattr.nlink != 0 && Key(reply.fattr.fileid, reply.fh) in c.index
    then Some(c.index[Key(reply.fattr.fileid, reply.fh)]) else None
  }

  /** Exactly when a request trips an assertion, told by who holds what. */
  ghost predicate Trips(base: Cache, w: World, op: Op) {
    match op
    case Forget(i, n) => i !in w.cache.recs || n > Owed(base, w.trace, i)
    case Create(parent, kind, reply) =>
      && parent in w.cache.recs && SetAttrError(kind) == 0
      && Target(w.cache, reply).Some? && Owed(base, w.trace, Target(w.cache, reply).value) != 0
    case ReaddirPlus(parent, _, _) => parent !in w.cache.recs
    case _ => false
  }

  lemma CrashIff(base: Cache, w: World, op: Op)
    requires Inv(w.cache) && Room(w.cache, Need(op)) && Accounted(base, w)
    ensures Next(w, op).crashed <==> Trips(base, w, op)
  {
    match op
    case Forget(i, n) => assert Owed(base, w.trace, i) == RefsOf(w.cache, i);
    case Create(parent, kind, reply) =>
      if parent in w.cache.recs && reply.Object? {
        CreateCrash(w.cache, parent, kind, reply);
        if Target(w.cache, reply).Some? {
          assert Owed(base, w.trace, Target(w.cache, reply).value) == RefsOf(w.cache, Target(w.cache, reply).value);
        }
      }
    case _ =>
  }

  lemma CreateCrash(c: Cache, parent: u64, kind: Kind, reply: Reply)
    requires Inv(c) && Room(c, 1) && parent in c.recs && reply.Object?
    ensures CreateStep(c, parent, kind, reply).1 == Crash <==>
            SetAttrError(kind) == 0 && Target(c, reply).Some? && RefsOf(c, Target(c, reply).value) != 0
  {
    SetOwnerFacts(c, parent, kind);
    var c0 := SetOwner(c, parent, kind);
    RoomCanGet(c0, reply.fh, reply.fattr);
    GetFacts(c0, reply.fh, reply.fattr, reply.mem);
    if Target(c, reply).Some? {
      var k := Key(reply.fattr.fileid, reply.fh);
      assert GoodKey(c0, k) && GoodKey(c, k);
    }
  }

  /** What is owed fits a 64-bit word. */
  ghost predicate Fitting(base: Cache, trace: seq<Event>) {
    forall i: u64 {:trigger Owed(base, trace, i)} :: Owed(base, trace, i) <= 0xffff_ffff_ffff_ffff
  }

  /** A kernel that forgets only what it holds, servers that create only unreferenced objects, no LINK. */
  ghost predicate Behaved(base: Cache, w: World, op: Op) {
    && Fitting(base, w.trace)
    && match op
       case Forget(i, n) => 1 <= n <= KernelHolds(base, w.trace, i)
       case Create(_, _, reply) => Target(w.cache, reply).Some? ==> Owed(base, w.trace, Target(w.cache, reply).value) == 0
       case ReaddirPlus(parent, _, _) => parent in w.cache.recs
       case Link(_, _, _, _) => false
       case Lookup(_, _) => true
  }

  ghost predicate BehavedRun(w: World, ops: seq<Op>)
    requires Inv(w.cache) && Room(w.cache, NeedAll(ops))
  {
    ops == [] ||
    (BehavedRun(w, ops[..|ops| - 1]) && Behaved(w.cache, Run(w, ops[..|ops| - 1]), ops[|ops| - 1]))
  }

  /** No assertion fails in a behaved run, the daemon never counts fewer references than the kernel, and neither is
      ever negative; while the counts fit a word, the stored ones are the true ones. */
  lemma {:induction false} BehavedNeverCrashes(w: World, ops: seq<Op>)
    requires Inv(w.cache) && Room(w.cache, NeedAll(ops)) && w.trace == [] && !w.crashed
    requires BehavedRun(w, ops)
    ensures var r := Run(w, ops);
            && !r.crashed
            && (forall i :: LinkReplies(r.trace, i) == 0 && 0 <= KernelHolds(w.cache, r.trace, i) <= Owed(w.cache, r.trace, i))
            && (Fitting(w.cache, r.trace) ==> Accounted(w.cache, r))
  {
    if ops != [] {
      var init, op := ops[..|ops| - 1], ops[|ops| - 1];
      BehavedNeverCrashes(w, init);
      var w1, r := Run(w, init), Run(w, ops);
      CrashIff(w.cache, w1, op);
      assert r.trace[..|r.trace| - 1] == w1.trace;
      if op.Forget? {
        assert Owed(w.cache, w1.trace, op.ino) == RefsOf(w1.cache, op.ino);
      }
      forall i ensures LinkReplies(r.trace, i) == 0 && 0 <= KernelHolds(w.cache, r.trace, i) {
        assert LinkReplies(w1.trace, i) == 0 && 0 <= KernelHolds(w.cache, w1.trace, i);
      }
    }
    var r := Run(w, ops);
    forall i ensures KernelHolds(w.cache, r.trace, i) <= Owed(w.cache, r.trace, i) {
      KernelView(w.cache, r.trace, i);
    }
    if Fitting(w.cache, r.trace) {
      ExactCounts(w, ops);
    }
  }

  /** With LINK the law fails: a kernel giving back all it holds trips the assertion exactly when
      it got more LINK entries for the inode than "." and ".." entries. */
  lemma ForgetAllCrashesIff(base: Cache, w: World, i: u64)
    requires Inv(w.cache) && Room(w.cache, 0) && Accounted(base, w) && i in w.cache.recs
    requires 0 <= KernelHolds(base, w.trace, i) <= 0xffff_ffff_ffff_ffff
    ensures Next(w, Forget(i, KernelHolds(base, w.trace, i))).crashed <==>
            LinkReplies(w.trace, i) > DotEntries(w.trace, i)
  {
    KernelView(base, w.trace, i);
    CrashIff(base, w, Forget(i, KernelHolds(base, w.trace, i)));
  }

  /** A LINK that succeeds is answered with an entry and moves no count. */
  lemma LinkOnce(w: World, i: u64, parent: u64, f: FAttr)
    requires Inv(w.cache) && Room(w.cache, 0) && !w.crashed && i in w.cache.recs && parent in w.cache.recs
    requires Refresh(w.cache.recs[i].key.fileid, w.cache.recs[i].attrs, f).1 == 0
    ensures var w1 := Next(w, Link(i, parent, 0, f));
            && w1.trace == w.trace + [Event(Link(i, parent, 0, f), Entry(i))] && !w1.crashed
            && Room(w1.cache, 0) && i in w1.cache.recs && RefsOf(w1.cache, i) == RefsOf(w.cache, i)
  {
    RefreshFacts(w.cache, i, f);
  }

  lemma {:induction false} KernelAfter(base: Cache, trace: seq<Event>, e: Event, i: u64)
    ensures KernelHolds(base, trace + [e], i) == KernelHolds(base, trace, i) + KernelAdds(e, i) - Taken(e.op, i)
  {
    assert (trace + [e])[..|trace|] == trace;
  }

  /** After any run: if the kernel holds all the daemon counts for an inode, one LINK to it and a forget of all
      the kernel holds trip the assertion. */
  lemma LinkThenForget(base: Cache, w: World, i: u64, parent: u64, f: FAttr)
    requires Inv(w.cache) && Room(w.cache, 0) && !w.crashed && i in w.cache.recs && parent in w.cache.recs
    requires KernelHolds(base, w.trace, i) == w.cache.recs[i].refs < 0xffff_ffff_ffff_ffff
    requires Refresh(w.cache.recs[i].key.fileid, w.cache.recs[i].attrs, f).1 == 0
    ensures var w1 := Next(w, Link(i, parent, 0, f));
            var held := KernelHolds(base, w1.trace, i);
            held == w.cache.recs[i].refs + 1 && Next(w1, Forget(i, held)).crashed
  {
    LinkOnce(w, i, parent, f);
    KernelAfter(base, w.trace, Event(Link(i, parent, 0, f), Entry(i)), i);
  }

  /** Creating an object the cache does not know: a new inode with one reference. */
  lemma CreateNew(w: World, kind: Kind, fh: WireFh, f: FAttr)
    requires Inv(w.cache) && Room(w.cache, 1) && !w.crashed && 1 in w.cache.recs && SetAttrError(kind) == 0
    requires f.valid && f.nlink != 0 && Key(f.fileid, fh) !in w.cache.index && HasFree(w.cache.recs.Keys)
    ensures var op, i := Create(1, kind, Object(fh, f, true)), FreshId(w.cache.curr, w.cache.recs.Keys);
            var w1 := Next(w, op);
            && !w1.crashed && w1.trace == w.trace + [Event(op, Entry(i))] && Room(w1.cache, 0)
            && i in w1.cache.recs && w1.cache.recs[i].refs == 1 && w1.cache.recs[i].key == Key(f.fileid, fh)
            && FileType(w1.cache.recs[i].attrs.mode) == FileType(f.mode)
  {
    SetOwnerFacts(w.cache, 1, kind);
    assert SetOwner(w.cache, 1, kind).recs.Keys == w.cache.recs.Keys;
  }

  /** A file system with one regular file, just made: the kernel holds its one reference. */
  ghost function OneFile(rootFh: WireFh, root: FAttr, uid: nat, gid: nat, fh: WireFh, f: FAttr): (w: World)
    requires root.valid && root.nlink != 0 && f.valid && f.nlink != 0 && Key(f.fileid, fh) != Key(root.fileid, rootFh)
    ensures Inv(w.cache) && Room(w.cache, 0) && !w.crashed && 1 in w.cache.recs && 2 in w.cache.recs
    ensures w.cache.recs[2].refs == 1 && w.cache.recs[2].key == Key(f.fileid, fh)
    ensures FileType(w.cache.recs[2].attrs.mode) == FileType(f.mode)
    ensures KernelHolds(Mounted(rootFh, root).cache, w.trace, 2) == 1
  {
    var w := Mounted(rootFh, root);
    var op := Create(1, File(uid, gid, None), Object(fh, f, true));
    assert GoodRec(w.cache, 1);
    assert forall k :: k in w.cache.index ==> GoodKey(w.cache, k);
    FewTakenHasFree(w.cache.recs.Keys);
    CreateNew(w, op.kind, fh, f);
    KernelAfter(w.cache, [], Event(op, Entry(2)), 2);
    Next(w, op)
  }

  /** The shortest such run: mount, create a regular file, link it into the root, forget both references. */
  lemma LinkCounterexample(rootFh: WireFh, root: FAttr, uid: nat, gid: nat, fh: WireFh, f: FAttr)
    requires root.valid && root.nlink != 0 && FileType(root.mode) == S_IFDIR
    requires f.valid && f.nlink != 0 && FileType(f.mode) == S_IFREG && f.fileid != root.fileid
    ensures var w := Next(OneFile(rootFh, root, uid, gid, fh, f), Link(2, 1, 0, f));
            && !w.crashed && KernelHolds(Mounted(rootFh, root).cache, w.trace, 2) == 2
            && Next(w, Forget(2, 2)).crashed
  {
    var w := OneFile(rootFh, root, uid, gid, fh, f);
    LinkOnce(w, 2, 1, f);
    LinkThenForget(Mounted(rootFh, root).cache, w, 2, 1, f);
  }

  // ----- identity of handles -----

  /** Any two successful lookups of a run name the same inode exactly when fileid and handle bytes agree,
      whatever was forgotten in between. */
  lemma HandleIdentity(c: Cache, fh1: seq<byte>, f1: FAttr, m1: bool, ops: seq<Op>, fh2: seq<byte>, f2: FAttr, m2: bool)
    requires Inv(c) && Room(c, NeedAll(ops) + 2)
    ensures var (c1, first) := Get(c, fh1, f1, m1);
            var c2 := Run(World(c1, [], false), ops).cache;
            var (_, second) := Get(c2, fh2, f2, m2);
            first.Got? && second.Got? ==>
              (first.ino == second.ino <==> f1.fileid == f2.fileid && fh1 == fh2)
  {
    GetFacts(c, fh1, f1, m1);
    var (c1, first) := Get(c, fh1, f1, m1);
    var c2 := Run(World(c1, [], false), ops).cache;
    GetFacts(c2, fh2, f2, m2);
    var (c3, second) := Get(c2, fh2, f2, m2);
    if first.Got? && second.Got? {
      assert Kept(c1, c2, first.ino) && Kept(c2, c3, first.ino);
      assert GoodRec(c2, first.ino);
    }
  }
}
