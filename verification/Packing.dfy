/** Filling a reply buffer of bounded size with directory entries (fuse/hsx_fuse_readdir.c). */
module Packing {

  /** The name an entry is shown under: `__alloc_copy_name` keeps at most 255 characters. */
  function CopyName(name: string): (r: string)
    ensures r <= name && |r| == (if |name| <= 255 then |name| else 255)
  {
    if |name| <= 255 then name else name[..255]
  }

  /** How many entries are packed: the first that does not leave room to spare stops the loop. */
  function Fits(sizes: seq<nat>, room: nat): (k: nat)
    ensures k <= |sizes|
  {
    if sizes == [] || sizes[0] >= room then 0 else 1 + Fits(sizes[1..], room - sizes[0])
  }

  function Sum(sizes: seq<nat>): nat {
    if sizes == [] then 0 else sizes[0] + Sum(sizes[1..])
  }

  /** The packed entries take less than the buffer, and one more would not. */
  lemma {:induction false} FitsIsGreedy(sizes: seq<nat>, room: nat)
    ensures var k := Fits(sizes, room);
            && (k > 0 ==> Sum(sizes[..k]) < room)
            && (k < |sizes| ==> Sum(sizes[..k]) + sizes[k] >= room)
  {
    if sizes != [] && sizes[0] < room {
      var k := Fits(sizes[1..], room - sizes[0]);
      FitsIsGreedy(sizes[1..], room - sizes[0]);
      assert sizes[..k + 1][1..] == sizes[1..][..k];
      assert sizes[1..][..0] == [];
    }
  }

  /** Entries before the first that would not fit even an empty buffer. */
  function Leading(sizes: seq<nat>, room: nat): (k: nat)
    ensures k <= |sizes|
    ensures forall i :: 0 <= i < k ==> sizes[i] < room
    ensures k < |sizes| ==> sizes[k] >= room
  {
    if sizes == [] || sizes[0] >= room then 0 else 1 + Leading(sizes[1..], room)
  }

  /** Packing never passes an entry that is too large, and stops at once only there. */
  lemma {:induction false} FitsLeading(sizes: seq<nat>, room: nat)
    ensures forall i :: 0 <= i < Fits(sizes, room) ==> sizes[i] < room
    ensures Fits(sizes, room) == 0 ==> sizes == [] || sizes[0] >= room
  {
    if sizes != [] && sizes[0] < room {
      FitsLeading(sizes[1..], room - sizes[0]);
      forall i | 0 <= i < Fits(sizes, room) ensures sizes[i] < room {
        if i > 0 { assert sizes[1..][i - 1] < room - sizes[0]; }
      }
    }
  }

  /** The same for a reply that continues at `pos` of a longer directory. */
  lemma FitsContinues(sizes: seq<nat>, pos: nat, bs: seq<nat>, room: nat)
    requires pos <= Leading(sizes, room) && bs <= sizes[pos..] && (pos < |sizes| ==> bs != [])
    ensures pos + Fits(bs, room) <= Leading(sizes, room)
    ensures Fits(bs, room) == 0 ==> pos == Leading(sizes, room)
  {
    FitsLeading(bs, room);
    var k := Fits(bs, room);
    forall i | pos <= i < pos + k ensures sizes[i] < room {
      assert bs[i - pos] == sizes[pos..][i - pos] == sizes[i];
    }
    if bs != [] {
      assert bs[0] == sizes[pos..][0] == sizes[pos];
    }
  }
}
