/**
 Listing a directory with READDIR (fuse/hsx_fuse_readdir.c, nfs3/hsi_nfs3_readdir.c;
 section 3.3.16 of RFC 1813): the server answers with batches of its own choosing,
 the daemon packs what fits, and the kernel resumes at the last cookie it was shown.
 */
module Readdir {
  import opened Basics
  import opened Attributes
  import opened Packing

  /** A directory entry on the server; the cookie says where to resume after it. */
  datatype DirEntry = DirEntry(name: string, fileid: u64, cookie: u64)

  /** An entry as the kernel sees it. */
  datatype Dirent = Dirent(name: string, ino: u64, off: u64)

  function Show(e: DirEntry): Dirent {
    Dirent(CopyName(e.name), e.fileid, e.cookie)
  }

  /** The entry as it should be shown: fileid, cookie, and the first 255 characters of the name. */
  ghost predicate Displays(d: Dirent, e: DirEntry) {
    d.ino == e.fileid && d.off == e.cookie && d.name == if |e.name| <= 255 then e.name else e.name[..255]
  }

  ghost predicate DisplaysAll(shown: seq<Dirent>, es: seq<DirEntry>) {
    |shown| <= |es| && forall k {:trigger Displays(shown[k], es[k])} :: 0 <= k < |shown| ==> Displays(shown[k], es[k])
  }

  function ShowAll(es: seq<DirEntry>): (r: seq<Dirent>)
    ensures |r| == |es|
  {
    seq(|es|, i requires 0 <= i < |es| => Show(es[i]))
  }

  lemma ShowsRight(es: seq<DirEntry>)
    ensures DisplaysAll(ShowAll(es), es)
  {
  }

  lemma ShowsPrefix(es: seq<DirEntry>, n: nat)
    requires n <= |es|
    ensures DisplaysAll(ShowAll(es[..n]), es)
  {
    ShowsRight(es[..n]);
    forall k | 0 <= k < n ensures Displays(ShowAll(es[..n])[k], es[k]) {
      assert Displays(ShowAll(es[..n])[k], es[..n][k]);
    }
  }

  /** Cookies are not zero and tell entries apart. */
  ghost predicate ValidDir(dir: seq<DirEntry>) {
    && (forall i :: 0 <= i < |dir| ==> dir[i].cookie != 0)
    && (forall i, j :: 0 <= i < j < |dir| ==> dir[i].cookie != dir[j].cookie)
  }

  // ----- the server -----

  /** The index right after the entry with this cookie. */
  function After(dir: seq<DirEntry>, cookie: u64): (r: Option<nat>)
    ensures r.Some? ==> 0 < r.value <= |dir| && dir[r.value - 1].cookie == cookie
  {
    if dir == [] then None
    else if dir[|dir| - 1].cookie == cookie then Some(|dir|)
    else After(dir[..|dir| - 1], cookie)
  }

  lemma {:induction false} AfterFinds(dir: seq<DirEntry>, k: nat)
    requires ValidDir(dir) && 0 < k <= |dir|
    ensures After(dir, dir[k - 1].cookie) == Some(k)
  {
    if k < |dir| {
      AfterFinds(dir[..|dir| - 1], k);
    }
  }

  /** Entries from the cookie on, at most `n` but at least one if any is left; None is NFS3ERR_BAD_COOKIE. */
  function Answer(dir: seq<DirEntry>, dirVerf: u64, cookie: u64, verf: u64, n: nat): (r: Option<seq<DirEntry>>) {
    if cookie == 0 then Some(Batch(dir, n))
    else if verf != dirVerf then None
    else
      var from := After(dir, cookie);
      if from.None? then None else Some(Batch(dir[from.value..], n))
  }

  function Batch(rest: seq<DirEntry>, n: nat): (r: seq<DirEntry>)
    ensures r <= rest && (rest != [] ==> r != [])
  {
    if n < |rest| then rest[..if n == 0 then 1 else n] else rest
  }

  // ----- the daemon -----

  /** `struct hsfs_readdir_ctx` */
  class Ctx {
    var off: u64
    var name: string
    var ino: u64
    var next: Ctx?

    constructor (name: string)
      ensures this.name == name && next == null
    {
      this.name, off, ino, next := name, 0, 0, null;
    }
  }

  ghost function CtxAt(nodes: seq<Ctx>, i: nat): Ctx? {
    if i < |nodes| then nodes[i] else null
  }

  ghost predicate NodeOf(nodes: seq<Ctx>, es: seq<DirEntry>, i: nat)
    requires i < |nodes| == |es|
    reads nodes[i]
  {
    && nodes[i].next == CtxAt(nodes, i + 1) && nodes[i].name == CopyName(es[i].name)
    && nodes[i].ino == es[i].fileid && nodes[i].off == es[i].cookie
  }

  /** The linked list `nodes` stands for the entries. */
  ghost predicate ListOf(nodes: seq<Ctx>, es: seq<DirEntry>)
    reads nodes
  {
    && |nodes| == |es|
    && (forall i {:trigger NodeOf(nodes, es, i)} :: 0 <= i < |es| ==> NodeOf(nodes, es, i))
    && (forall i, j :: 0 <= i < j < |nodes| ==> nodes[i] != nodes[j])
  }

  /** The loop of `hsi_nfs3_readdir` with `__alloc_copy_name`: a list grown at its tail. */
  method BuildList(es: seq<DirEntry>) returns (head: Ctx?, ghost nodes: seq<Ctx>)
    ensures ListOf(nodes, es) && head == CtxAt(nodes, 0) && fresh(nodes)
  {
    head, nodes := null, [];
    var tail: Ctx? := null;
    for k := 0 to |es|
      invariant ListOf(nodes, es[..k]) && head == CtxAt(nodes, 0) && fresh(nodes)
      invariant tail == if k == 0 then null else nodes[k - 1]
    {
      var ctx := new Ctx(CopyName(es[k].name));
      ghost var before := nodes;
      label Linking:
      if tail != null {
        tail.next := ctx;
      }
      tail := ctx;
      if head == null {
        head := tail;
      }
      tail.ino := es[k].fileid;
      tail.off := es[k].cookie;
      nodes := nodes + [ctx];
      ghost var done := es[..k + 1];
      forall i | 0 <= i <= k ensures NodeOf(nodes, done, i) {
        if i < k { assert old@Linking(NodeOf(before, es[..k], i)); }
      }
    }
    assert es[..|es|] == es;
  }

  /** The packing loop of `hsx_fuse_readdir`; `esize` is the size libfuse gives an entry. */
  method Pack(head: Ctx?, esize: string -> nat, size: nat, ghost nodes: seq<Ctx>, ghost es: seq<DirEntry>) returns (reply: seq<Dirent>)
    requires ListOf(nodes, es) && head == CtxAt(nodes, 0)
    ensures reply == Packed(es, esize, size)
    ensures |reply| == Fits(EntrySizes(es, esize), size) && DisplaysAll(reply, es)
  {
    ghost var sizes := EntrySizes(es, esize);
    var ctx, len := head, 0;
    reply := [];
    ghost var k := 0;
    assert sizes[0..] == sizes && es[..0] == [];
    while ctx != null
      invariant k <= |es| && len <= size && ctx == CtxAt(nodes, k)
      invariant Fits(sizes, size) == k + Fits(sizes[k..], size - len)
      invariant reply == ShowAll(es[..k])
      decreases |es| - k
    {
      assert NodeOf(nodes, es, k);
      var res := esize(ctx.name);
      if res >= size - len {
        break;
      }
      reply := reply + [Dirent(ctx.name, ctx.ino, ctx.off)];
      len := len + res;
      ctx := ctx.next;
      assert sizes[k..][1..] == sizes[k + 1..] && es[..k + 1] == es[..k] + [es[k]];
      k := k + 1;
    }
    ShowsPrefix(es, k);
  }

  function EntrySizes(es: seq<DirEntry>, esize: string -> nat): (r: seq<nat>)
    ensures |r| == |es|
  {
    seq<nat>(|es|, i requires 0 <= i < |es| => esize(CopyName(es[i].name)))
  }

  function Packed(es: seq<DirEntry>, esize: string -> nat, size: nat): seq<Dirent> {
    ShowAll(es[..Fits(EntrySizes(es, esize), size)])
  }

  // ----- a whole listing -----

  datatype ReaddirReply = Entries(shown: seq<Dirent>) | BadCookie | Stale

  /** The directory's inode: the verifier kept in it, its fileid and its attributes. */
  datatype DirNode = DirNode(verf: u64, fileid: u64, attrs: Attrs)

  /** A reply whose attributes are not of this directory. */
  predicate Alien(node: DirNode, f: FAttr) {
    f.valid && (node.fileid != f.fileid || FileType(node.attrs.mode) != FileType(f.mode))
  }

  /** One READDIR request of the kernel, with the attributes the server sends along. */
  method ReaddirOp(dir: seq<DirEntry>, dirVerf: u64, node: DirNode, cookie: u64, n: nat, f: FAttr, esize: string -> nat, size: nat)
    returns (reply: ReaddirReply, node': DirNode)
    ensures var a := Answer(dir, dirVerf, cookie, node.verf, n);
            if a.None? then reply == BadCookie && node' == node
            else if Alien(node, f) then reply == Stale && node' == node
            else reply == Entries(Packed(a.value, esize, size)) && node' == DirNode(dirVerf, node.fileid, node'.attrs)
                 && (if f.valid then Carries(node'.attrs, f) else node'.attrs == node.attrs)
    ensures reply.Entries? ==>
              var a := Answer(dir, dirVerf, cookie, node.verf, n); a.Some? && DisplaysAll(reply.shown, a.value)
    ensures FileType(node'.attrs.mode) == FileType(node.attrs.mode)
  {
    var answer := Answer(dir, dirVerf, cookie, node.verf, n);
    if answer.None? {
      return BadCookie, node;
    }
    var (attrs, status) := Refresh(node.fileid, node.attrs, f);
    if status != 0 {
      return Stale, node;
    }
    node' := DirNode(dirVerf, node.fileid, attrs);
    var head, nodes := BuildList(answer.value);
    var packed := Pack(head, esize, size, nodes, answer.value);
    return Entries(packed), node';
  }

  /** One turn of a listing that has shown `pos` entries. */
  method ListTurn(dir: seq<DirEntry>, dirVerf: u64, node: DirNode, cookie: u64, n: nat, f: FAttr, esize: string -> nat, size: nat,
                  ghost pos: nat, ghost all: nat)
    returns (reply: ReaddirReply, node': DirNode)
    requires ValidDir(dir) && all == Leading(EntrySizes(dir, esize), size) && pos <= all
    requires cookie == CookieAt(dir, pos) && (pos > 0 ==> node.verf == dirVerf)
    ensures reply == Stale <==> Alien(node, f)
    ensures if reply.Entries? then Continued(dir, pos, all, reply.shown) && node'.verf == dirVerf else reply == Stale && node' == node
    ensures node'.fileid == node.fileid && FileType(node'.attrs.mode) == FileType(node.attrs.mode)
  {
    AnswerAt(dir, dirVerf, pos, node.verf, n);
    Resume(dir, pos, Batch(dir[pos..], n), esize, size);
    reply, node' := ReaddirOp(dir, dirVerf, node, cookie, n, f, esize, size);
  }

  /** `shown` is what comes after `pos` entries of the `all` to be shown, and nothing only after all of them. */
  ghost predicate Continued(dir: seq<DirEntry>, pos: nat, all: nat, shown: seq<Dirent>) {
    && pos + |shown| <= all <= |dir| && ShowAll(dir[..pos]) + shown == ShowAll(dir[..pos + |shown|])
    && (shown == [] ==> pos == all)
    && (shown != [] ==> shown[|shown| - 1].off == CookieAt(dir, pos + |shown|))
  }

  /** The kernel's listing: from cookie zero, resuming at the last cookie shown, until an empty reply.
      Whatever batches the server chooses, it gets the entries in order, each once, up to the first
      that is not strictly smaller than the buffer; it is cut short exactly if a reply carries attributes that are
      not the directory's. */
  method ListDirectory(dir: seq<DirEntry>, dirVerf: u64, node0: DirNode, batch: nat -> nat, attrs: nat -> FAttr,
                       esize: string -> nat, size: nat)
    returns (shown: seq<Dirent>, stale: bool, calls: nat)
    requires ValidDir(dir)
    ensures |shown| <= Leading(EntrySizes(dir, esize), size) && shown == ShowAll(dir[..|shown|])
    ensures DisplaysAll(shown, dir)
    ensures !stale ==> |shown| == Leading(EntrySizes(dir, esize), size)
    ensures stale <==> exists k :: 0 <= k < calls && Alien(node0, attrs(k))
  {
    shown, stale, calls := [], false, 0;
    var cookie, node := 0, node0;
    ghost var all := Leading(EntrySizes(dir, esize), size);
    while true
      invariant |shown| <= all && shown == ShowAll(dir[..|shown|])
      invariant cookie == CookieAt(dir, |shown|) && (|shown| > 0 ==> node.verf == dirVerf)
      invariant node.fileid == node0.fileid && FileType(node.attrs.mode) == FileType(node0.attrs.mode)
      invariant !stale && forall k :: 0 <= k < calls ==> !Alien(node0, attrs(k))
      decreases all - |shown|
    {
      var reply;
      reply, node := ListTurn(dir, dirVerf, node, cookie, batch(calls), attrs(calls), esize, size, |shown|, all);
      calls := calls + 1;
      if reply.Stale? {
        stale := true;
        break;
      }
      if reply.shown == [] {
        break;
      }
      shown := shown + reply.shown;
      cookie := reply.shown[|reply.shown| - 1].off;
    }
    ShowsPrefix(dir, |shown|);
  }

  /** The cookie to resume with after `pos` entries. */
  function CookieAt(dir: seq<DirEntry>, pos: nat): u64
    requires pos <= |dir|
  {
    if pos == 0 then 0 else dir[pos - 1].cookie
  }

  lemma AnswerAt(dir: seq<DirEntry>, dirVerf: u64, pos: nat, verf: u64, n: nat)
    requires ValidDir(dir) && pos <= |dir| && (pos > 0 ==> verf == dirVerf)
    ensures Answer(dir, dirVerf, CookieAt(dir, pos), verf, n) == Some(Batch(dir[pos..], n))
  {
    if pos > 0 {
      AfterFinds(dir, pos);
    } else {
      assert dir[0..] == dir;
    }
  }

  /** What one reply adds, given that the batch continues the directory at `pos`. */
  lemma Resume(dir: seq<DirEntry>, pos: nat, b: seq<DirEntry>, esize: string -> nat, size: nat)
    requires pos <= Leading(EntrySizes(dir, esize), size) && b <= dir[pos..] && (pos < |dir| ==> b != [])
    ensures var reply := Packed(b, esize, size);
            var l := Leading(EntrySizes(dir, esize), size);
            && pos + |reply| <= l && ShowAll(dir[..pos]) + reply == ShowAll(dir[..pos + |reply|])
            && (reply == [] ==> pos == l)
            && (reply != [] ==> reply[|reply| - 1].off == CookieAt(dir, pos + |reply|))
  {
    var bs, sizes := EntrySizes(b, esize), EntrySizes(dir, esize);
    forall i | 0 <= i < |b| ensures b[i] == dir[pos + i] && bs[i] == sizes[pos..][i] {
      assert dir[pos..][i] == dir[pos + i];
    }
    FitsContinues(sizes, pos, bs, size);
  }

  /** The listing is the whole directory exactly when every entry is strictly smaller than the buffer. */
  lemma CompleteIff(dir: seq<DirEntry>, esize: string -> nat, size: nat)
    ensures ShowAll(dir[..Leading(EntrySizes(dir, esize), size)]) == ShowAll(dir) <==>
            forall e :: e in dir ==> esize(CopyName(e.name)) < size
  {
    var sizes := EntrySizes(dir, esize);
    var k := Leading(sizes, size);
    if k == |dir| {
      assert dir[..k] == dir;
      forall e | e in dir ensures esize(CopyName(e.name)) < size {
        var i :| 0 <= i < |dir| && dir[i] == e;
        assert sizes[i] < size;
      }
    } else {
      assert |ShowAll(dir[..k])| == k && esize(CopyName(dir[k].name)) == sizes[k] >= size && dir[k] in dir;
    }
  }
}
