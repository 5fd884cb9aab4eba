/**
 Hash tables of doubly linked lists with single-pointer heads
 (include/hsfs/list.h, include/hsfs/hashtable.h).

 A list node is embedded in the object it links, so a node is named here by the
 address of that object, and the pointer fields of all nodes are the maps `next` and `pprev`.
 A node's `pprev` does not point at the previous node but at the pointer that
 points at this node: a bucket's `first` or the previous node's `next`. That
 pointer-to-pointer is a `Slot`, and `Store` is the assignment `*pprev = x`.
 */
module HashTable {
  import opened Basics
  import opened Hash

  /** The address of an object in memory. */
  type Ptr = nat

  datatype Slot = FirstOf(bucket: nat) | NextOf(node: Ptr)

  /** All pointers of a table: `first` of every bucket, `next` and `pprev` of every node. */
  datatype Links = Links(first: seq<Option<Ptr>>, next: map<Ptr, Option<Ptr>>, pprev: map<Ptr, Option<Slot>>)

  /** What `first` or a node's `next` holds when the nodes `c[i..]` follow. */
  ghost function At(c: seq<Ptr>, i: nat): Option<Ptr> {
    if i < |c| then Some(c[i]) else None
  }

  /** What `pprev` of the `i`-th node holds. */
  ghost function Back(b: nat, c: seq<Ptr>, i: nat): Option<Slot>
    requires i <= |c|
  {
    Some(if i == 0 then FirstOf(b) else NextOf(c[i - 1]))
  }

  ghost predicate Linked(m: Links, b: nat, c: seq<Ptr>, i: nat)
    requires i < |c|
  {
    c[i] in m.next && m.next[c[i]] == At(c, i + 1) && c[i] in m.pprev && m.pprev[c[i]] == Back(b, c, i)
  }

  /** The nodes reachable from bucket `b` are exactly `c`, with every back pointer right. */
  ghost predicate Chain(m: Links, b: nat, c: seq<Ptr>) {
    b < |m.first| && m.first[b] == At(c, 0) && forall i :: 0 <= i < |c| ==> Linked(m, b, c, i)
  }

  /** A node sits at one place of one chain only: back pointers lead to one bucket. */
  lemma {:induction false} OnePlace(m: Links, a: nat, c: seq<Ptr>, i: nat, b: nat, d: seq<Ptr>, j: nat)
    requires Chain(m, a, c) && Chain(m, b, d)
    requires i < |c| && j < |d| && c[i] == d[j]
    ensures a == b && i == j
    decreases i
  {
    assert Linked(m, a, c, i) && Linked(m, b, d, j);
    if i > 0 && j > 0 {
      OnePlace(m, a, c, i - 1, b, d, j - 1);
    }
  }

  ghost predicate NoRepeats(c: seq<Ptr>) {
    forall i, j :: 0 <= i < |c| && 0 <= j < |c| && c[i] == c[j] ==> i == j
  }

  lemma Distinct(m: Links, b: nat, c: seq<Ptr>)
    requires Chain(m, b, c)
    ensures NoRepeats(c)
  {
    forall i, j | 0 <= i < |c| && 0 <= j < |c| && c[i] == c[j] ensures i == j {
      OnePlace(m, b, c, i, b, c, j);
    }
  }

  /** The pointers determine the chain. */
  lemma ChainUnique(m: Links, b: nat, c: seq<Ptr>, d: seq<Ptr>)
    requires Chain(m, b, c) && Chain(m, b, d)
    ensures c == d
  {
    var i := 0;
    while i < |c| && i < |d|
      invariant i <= |c| && i <= |d| && c[..i] == d[..i]
      invariant At(c, i) == At(d, i)
    {
      assert Linked(m, b, c, i) && Linked(m, b, d, i);
      i := i + 1;
    }
  }

  /** Only pointers of nodes in `touched` and of bucket `b` differ. */
  ghost predicate Local(m: Links, m': Links, b: nat, touched: set<Ptr>) {
    && |m'.first| == |m.first| && (forall a :: 0 <= a < |m.first| && a != b ==> m'.first[a] == m.first[a])
    && (forall n :: n in m.next && n !in touched ==> n in m'.next && m'.next[n] == m.next[n])
    && (forall n :: n in m.pprev && n !in touched ==> n in m'.pprev && m'.pprev[n] == m.pprev[n])
  }

  ghost function Nodes(c: seq<Ptr>): set<Ptr> {
    set n | n in c
  }

  lemma ChainKept(m: Links, m': Links, b: nat, touched: set<Ptr>, a: nat, c: seq<Ptr>)
    requires Chain(m, a, c) && Local(m, m', b, touched) && a != b && forall n :: n in c ==> n !in touched
    ensures Chain(m', a, c)
  {
    forall i | 0 <= i < |c| ensures Linked(m', a, c, i) {
      assert Linked(m, a, c, i);
    }
  }

  // ----- all buckets together -----

  /** Bucket `b` holds its chain, made of nodes whose key hashes to `b`. */
  ghost predicate BucketOk(m: Links, chains: seq<seq<Ptr>>, keyOf: map<Ptr, u64>, b: nat)
    requires b < |chains|
  {
    Chain(m, b, chains[b]) && forall n :: n in chains[b] ==> n in keyOf && Bucket(keyOf[n]) == b
  }

  /** A node is on the chain its key hashes to. */
  ghost predicate NodeOk(chains: seq<seq<Ptr>>, keyOf: map<Ptr, u64>, n: Ptr)
    requires |chains| == BUCKETS && n in keyOf
  {
    n in chains[Bucket(keyOf[n])]
  }

  /** The table holds exactly the nodes of `keyOf`, each once and in the bucket its key hashes to. */
  ghost predicate Filled(m: Links, chains: seq<seq<Ptr>>, keyOf: map<Ptr, u64>) {
    && |m.first| == |chains| == BUCKETS
    && (forall b {:trigger BucketOk(m, chains, keyOf, b)} :: 0 <= b < BUCKETS ==> BucketOk(m, chains, keyOf, b))
    && (forall n {:trigger NodeOk(chains, keyOf, n)} :: n in keyOf ==> NodeOk(chains, keyOf, n))
  }

  /** Where a node is: in the bucket its key hashes to, once, and nowhere else. */
  lemma Placed(m: Links, chains: seq<seq<Ptr>>, keyOf: map<Ptr, u64>, n: Ptr, b: nat)
    requires Filled(m, chains, keyOf) && b < BUCKETS
    ensures n in chains[b] <==> n in keyOf && b == Bucket(keyOf[n])
    ensures NoRepeats(chains[b])
  {
    assert BucketOk(m, chains, keyOf, b);
    Distinct(m, b, chains[b]);
    if n in keyOf {
      assert NodeOk(chains, keyOf, n);
    }
  }

  /** Replacing the chain of one bucket. */
  lemma FilledUpdate(m: Links, m': Links, chains: seq<seq<Ptr>>, keyOf: map<Ptr, u64>, keyOf': map<Ptr, u64>,
                        b: nat, d: seq<Ptr>, touched: set<Ptr>)
    requires Filled(m, chains, keyOf) && b < BUCKETS && Chain(m', b, d) && Local(m, m', b, touched)
    requires forall n :: n in touched ==> n !in keyOf || Bucket(keyOf[n]) == b
    requires forall n :: n in d ==> n in keyOf' && Bucket(keyOf'[n]) == b
    requires forall n :: n in keyOf' && n !in d ==> n in keyOf && keyOf[n] == keyOf'[n] && Bucket(keyOf[n]) != b
    requires forall n :: n in keyOf && Bucket(keyOf[n]) != b ==> n in keyOf' && keyOf'[n] == keyOf[n]
    ensures Filled(m', chains[b := d], keyOf')
  {
    var chains' := chains[b := d];
    forall a | 0 <= a < BUCKETS ensures BucketOk(m', chains', keyOf', a) {
      assert BucketOk(m, chains, keyOf, a);
      if a != b {
        ChainKept(m, m', b, touched, a, chains[a]);
      }
    }
    forall n | n in keyOf' ensures NodeOk(chains', keyOf', n) {
      if n !in d { assert NodeOk(chains, keyOf, n); }
    }
  }

  lemma FilledAdd(m: Links, m': Links, chains: seq<seq<Ptr>>, keyOf: map<Ptr, u64>, b: nat, n: Ptr, key: u64)
    requires Filled(m, chains, keyOf) && b == Bucket(key) && n !in keyOf
    requires Chain(m', b, [n] + chains[b]) && Local(m, m', b, {n} + Nodes(chains[b]))
    ensures Filled(m', chains[b := [n] + chains[b]], keyOf[n := key])
  {
    var c := chains[b];
    assert BucketOk(m, chains, keyOf, b);
    forall x | x in keyOf && Bucket(keyOf[x]) == b ensures x in c {
      assert NodeOk(chains, keyOf, x);
    }
    assert forall x :: x in [n] + c <==> x == n || x in c;
    FilledUpdate(m, m', chains, keyOf, keyOf[n := key], b, [n] + c, {n} + Nodes(c));
  }

  ghost function Without(c: seq<Ptr>, k: nat): (d: seq<Ptr>)
    requires k < |c|
  {
    c[..k] + c[k + 1..]
  }

  lemma InWithout(c: seq<Ptr>, k: nat)
    requires k < |c| && NoRepeats(c)
    ensures forall n :: n in Without(c, k) <==> n in c && n != c[k]
  {
    var d := Without(c, k);
    forall n | n in c && n != c[k] ensures n in d {
      var i :| 0 <= i < |c| && c[i] == n;
      assert d[if i < k then i else i - 1] == n;
    }
    forall n | n in d ensures n in c && n != c[k] {
      var i :| 0 <= i < |d| && d[i] == n;
      assert c[if i < k then i else i + 1] == n;
    }
  }

  lemma FilledRemove(m: Links, m': Links, chains: seq<seq<Ptr>>, keyOf: map<Ptr, u64>, b: nat, k: nat)
    requires Filled(m, chains, keyOf) && b < BUCKETS && k < |chains[b]|
    requires Chain(m', b, Without(chains[b], k)) && Local(m, m', b, Nodes(chains[b]))
    ensures Filled(m', chains[b := Without(chains[b], k)], keyOf - {chains[b][k]})
  {
    var c := chains[b];
    assert BucketOk(m, chains, keyOf, b);
    forall x | x in keyOf && Bucket(keyOf[x]) == b ensures x in c {
      assert NodeOk(chains, keyOf, x);
    }
    Distinct(m, b, c);
    InWithout(c, k);
    FilledUpdate(m, m', chains, keyOf, keyOf - {c[k]}, b, Without(c, k), Nodes(c));
  }

  class Table {
    var first: seq<Option<Ptr>>
    var next: map<Ptr, Option<Ptr>>
    var pprev: map<Ptr, Option<Slot>>
    /** The chain of every bucket, and the key every node was added with. */
    ghost var chains: seq<seq<Ptr>>
    ghost var keyOf: map<Ptr, u64>

    ghost function Mem(): Links
      reads this
    {
      Links(first, next, pprev)
    }

    ghost predicate Valid()
      reads this
    {
      Filled(Mem(), chains, keyOf)
    }

    /** `hash_init`: a loop clears the head of every bucket. */
    constructor ()
      ensures Valid() && keyOf == map[]
    {
      var heads: seq<Option<Ptr>> := [];
      while |heads| < BUCKETS
        invariant |heads| <= BUCKETS && forall b :: 0 <= b < |heads| ==> heads[b] == None
      {
        heads := heads + [None];
      }
      first, next, pprev := heads, map[], map[];
      chains, keyOf := seq(BUCKETS, _ => []), map[];
    }

    // ----- single lists; a node is given alone, its chain and place are ghost -----

    /** The assignment `*slot = x`. */
    method Store(slot: Slot, x: Option<Ptr>)
      requires slot.FirstOf? ==> slot.bucket < |first|
      modifies this`first, this`next
      ensures slot.FirstOf? ==> first == old(first)[slot.bucket := x] && next == old(next)
      ensures slot.NextOf? ==> first == old(first) && next == old(next)[slot.node := x]
    {
      match slot
      case FirstOf(b) => first := first[b := x];
      case NextOf(n) => next := next[n := x];
    }

    /** `hlist_add_head` */
    method AddHead(n: Ptr, b: nat, ghost c: seq<Ptr>)
      requires Chain(Mem(), b, c) && n !in c
      modifies this`first, this`next, this`pprev
      ensures Chain(Mem(), b, [n] + c)
      ensures Local(old(Mem()), Mem(), b, {n} + Nodes(c))
    {
      Distinct(Mem(), b, c);
      var f := first[b];
      next := next[n := f];
      if f.Some? {
        pprev := pprev[f.value := Some(NextOf(n))];
      }
      first := first[b := Some(n)];
      pprev := pprev[n := Some(FirstOf(b))];
      ghost var d := [n] + c;
      forall i | 0 <= i < |d| ensures Linked(Mem(), b, d, i) {
        if i > 0 { assert Linked(old(Mem()), b, c, i - 1); }
      }
    }

    /** `__hlist_del` */
    method Unlink(n: Ptr, ghost b: nat, ghost c: seq<Ptr>, ghost k: nat)
      requires Chain(Mem(), b, c) && k < |c| && c[k] == n && n in next && n in pprev && pprev[n].Some?
      modifies this`first, this`next, this`pprev
      ensures Chain(Mem(), b, Without(c, k))
      ensures Local(old(Mem()), Mem(), b, Nodes(c))
      ensures n in next && next[n] == old(next[n]) && n in pprev && pprev[n] == old(pprev[n])
    {
      Distinct(Mem(), b, c);
      assert Linked(Mem(), b, c, k);
      var nx := next[n];
      var pp := pprev[n].value;
      Store(pp, nx);
      if nx.Some? {
        pprev := pprev[nx.value := Some(pp)];
      }
      ghost var d := Without(c, k);
      forall i | 0 <= i < |d| ensures Linked(Mem(), b, d, i) {
        assert Linked(old(Mem()), b, c, if i < k then i else i + 1);
      }
    }

    /** `hlist_del_init`; nothing happens to a node that is on no list. */
    method DelInit(n: Ptr, ghost b: nat, ghost c: seq<Ptr>, ghost k: nat)
      requires n in pprev && pprev[n].Some? ==> Chain(Mem(), b, c) && k < |c| && c[k] == n
      modifies this`first, this`next, this`pprev
      ensures old(n in pprev && pprev[n].Some?) ==>
                Chain(Mem(), b, Without(c, k)) && Local(old(Mem()), Mem(), b, Nodes(c))
      ensures old(n in pprev && pprev[n].Some?) ==> n in next && next[n] == None && n in pprev && pprev[n] == None
      ensures !old(n in pprev && pprev[n].Some?) ==> Mem() == old(Mem())
    {
      if n in pprev && pprev[n].Some? {
        assert Linked(Mem(), b, c, k);
        Distinct(Mem(), b, c);
        Unlink(n, b, c, k);
        ghost var m := Mem();
        InWithout(c, k);
        next, pprev := next[n := None], pprev[n := None];
        forall i | 0 <= i < |Without(c, k)| ensures Linked(Mem(), b, Without(c, k), i) {
          assert Linked(m, b, Without(c, k), i);
        }
      }
    }

    /** `hlist_add_before` */
    method AddBefore(n: Ptr, nx: Ptr, ghost b: nat, ghost c: seq<Ptr>, ghost k: nat)
      requires Chain(Mem(), b, c) && k < |c| && c[k] == nx && n !in c && nx in pprev && pprev[nx].Some?
      modifies this`first, this`next, this`pprev
      ensures Chain(Mem(), b, c[..k] + [n] + c[k..])
      ensures Local(old(Mem()), Mem(), b, {n} + Nodes(c))
    {
      Distinct(Mem(), b, c);
      assert Linked(Mem(), b, c, k);
      pprev := pprev[n := pprev[nx]];
      next := next[n := Some(nx)];
      pprev := pprev[nx := Some(NextOf(n))];
      Store(pprev[n].value, Some(n));
      ghost var d := c[..k] + [n] + c[k..];
      forall i | 0 <= i < |d| ensures Linked(Mem(), b, d, i) {
        if i != k { assert Linked(old(Mem()), b, c, if i < k then i else i - 1); }
      }
    }

    /** `hlist_add_after` */
    method AddAfter(n: Ptr, nx: Ptr, ghost b: nat, ghost c: seq<Ptr>, ghost k: nat)
      requires Chain(Mem(), b, c) && k < |c| && c[k] == n && nx !in c && n in next
      modifies this`next, this`pprev
      ensures Chain(Mem(), b, c[..k + 1] + [nx] + c[k + 1..])
      ensures Local(old(Mem()), Mem(), b, {nx} + Nodes(c))
    {
      Distinct(Mem(), b, c);
      assert Linked(Mem(), b, c, k);
      next := next[nx := next[n]];
      next := next[n := Some(nx)];
      pprev := pprev[nx := Some(NextOf(n))];
      if next[nx].Some? {
        pprev := pprev[next[nx].value := Some(NextOf(nx))];
      }
      ghost var d := c[..k + 1] + [nx] + c[k + 1..];
      forall i | 0 <= i < |d| ensures Linked(Mem(), b, d, i) {
        if i != k + 1 { assert Linked(old(Mem()), b, c, if i <= k then i else i - 1); }
      }
    }

    // ----- the table -----

    /** `hash_add` of a node that is in no bucket. */
    method Add(n: Ptr, key: u64)
      requires Valid() && n !in keyOf
      modifies this
      ensures Valid() && keyOf == old(keyOf)[n := key]
    {
      var b := HashMin(key);
      ghost var c := chains[b];
      assert BucketOk(Mem(), chains, keyOf, b);
      AddHead(n, b, c);
      FilledAdd(old(Mem()), Mem(), chains, keyOf, b, n, key);
      chains, keyOf := chains[b := [n] + c], keyOf[n := key];
    }

    /** `hash_del`: the node's own pointers lead to its bucket. */
    method Del(n: Ptr)
      requires Valid() && n in keyOf
      modifies this
      ensures Valid() && keyOf == old(keyOf) - {n}
    {
      ghost var b := Bucket(keyOf[n]);
      ghost var c := chains[b];
      assert BucketOk(Mem(), chains, keyOf, b) && NodeOk(chains, keyOf, n);
      ghost var k :| 0 <= k < |c| && c[k] == n;
      assert Linked(Mem(), b, c, k);
      DelInit(n, b, c, k);
      FilledRemove(old(Mem()), Mem(), chains, keyOf, b, k);
      chains, keyOf := chains[b := Without(c, k)], keyOf - {n};
    }

    /** Start of `hash_for_each_possible`: a chain that holds every node with this key. */
    method Possible(key: u64) returns (node: Option<Ptr>, ghost b: nat, ghost c: seq<Ptr>)
      requires Valid()
      ensures Chain(Mem(), b, c) && node == At(c, 0)
      ensures forall n :: n in c ==> n in keyOf
      ensures forall n :: n in keyOf && keyOf[n] == key ==> n in c
    {
      var bucket := HashMin(key);
      node, b, c := first[bucket], bucket, chains[bucket];
      assert BucketOk(Mem(), chains, keyOf, b);
      forall n | n in keyOf && keyOf[n] == key ensures n in c {
        assert NodeOk(chains, keyOf, n);
      }
    }
  }
}
