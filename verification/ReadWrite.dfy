/**
 Chunked reading and writing (fuse/hsx_fuse_read.c, fuse/hsx_fuse_write.c,
 nfs3/hsi_nfs3_read.c, nfs3/hsi_nfs3_write.c; sections 3.3.6 and 3.3.7 of RFC 1813)
 against a server that may answer short, fail, or apply a write whose answer is lost.
 */
module ReadWrite {
  import opened Basics
  import opened Rpc

  /** A file after one byte was written at `i`; a hole before it reads as zeros. */
  function PutByte(file: seq<byte>, i: nat, b: byte): (r: seq<byte>) {
    if i < |file| then file[i := b] else file + Zeros(i - |file|) + [b]
  }

  /** A file after `buf[lo..hi]` was written, byte `i` of the buffer at offset `off + i`. */
  function Overlay(file: seq<byte>, off: nat, buf: seq<byte>, lo: nat, hi: nat): (r: seq<byte>)
    requires hi <= |buf|
    decreases hi
  {
    if hi <= lo then file else PutByte(Overlay(file, off, buf, lo, hi - 1), off + hi - 1, buf[hi - 1])
  }

  /** Byte by byte: the data where it was written, zeros in a hole, the old file elsewhere. */
  lemma {:induction false} OverlayBytes(file: seq<byte>, off: nat, buf: seq<byte>, lo: nat, hi: nat)
    requires hi <= |buf|
    ensures var r := Overlay(file, off, buf, lo, hi);
            && |r| == (if hi <= lo || off + hi <= |file| then |file| else off + hi)
            && forall i :: 0 <= i < |r| ==>
                 r[i] == if off + lo <= i < off + hi then buf[i - off] else if i < |file| then file[i] else 0
    decreases hi
  {
    if lo < hi {
      OverlayBytes(file, off, buf, lo, hi - 1);
    }
  }

  /** Writing again what is there, or continuing where it ends, leaves a longer prefix of the same buffer. */
  lemma OverlayExtends(file: seq<byte>, off: nat, buf: seq<byte>, h: nat, c: nat, e: nat)
    requires c <= h <= |buf| && c <= e <= |buf|
    ensures Overlay(Overlay(file, off, buf, 0, h), off, buf, c, e) == Overlay(file, off, buf, 0, Max(h, e))
  {
    var now := Overlay(file, off, buf, 0, h);
    var a, b := Overlay(now, off, buf, c, e), Overlay(file, off, buf, 0, Max(h, e));
    OverlayBytes(file, off, buf, 0, h);
    OverlayBytes(now, off, buf, c, e);
    OverlayBytes(file, off, buf, 0, Max(h, e));
    assert |a| == |b|;
  }

  function Min(a: nat, b: nat): nat {
    if a < b then a else b
  }

  function Max(a: nat, b: nat): nat {
    if a < b then b else a
  }

  // ----- writing -----

  /** One try of a WRITE: lost, or answered with a status. Either way the server has stored a prefix of the data. */
  datatype WriteTry = Lost(recorded: int, stored: nat) | Answered(status: int, stored: nat)

  function Outcome(t: WriteTry): Attempt {
    if t.Lost? then Failure(t.recorded) else Answer
  }

  /** The file after `n` tries to write `len` bytes of the buffer from `c` on. */
  ghost function FileAfter(file: seq<byte>, off: nat, buf: seq<byte>, c: nat, len: nat, env: nat -> WriteTry, n: nat): seq<byte>
    requires c + len <= |buf|
  {
    if n == 0 then file
    else Overlay(FileAfter(file, off, buf, c, len, env, n - 1), off, buf, c, c + Min(env(n - 1).stored, len))
  }

  /** The longest prefix any of the first `n` tries stored. */
  ghost function Reach(env: nat -> WriteTry, len: nat, n: nat): (r: nat)
    ensures r <= len
    ensures n > 0 ==> Min(env(n - 1).stored, len) <= r
  {
    if n == 0 then 0 else Max(Reach(env, len, n - 1), Min(env(n - 1).stored, len))
  }

  /** Retries are idempotent: however often a chunk is sent, the file holds one prefix of the buffer. */
  lemma {:induction false} RetriesIdempotent(file: seq<byte>, off: nat, buf: seq<byte>, h: nat, c: nat, len: nat,
                                             env: nat -> WriteTry, n: nat)
    requires c <= h <= |buf| && c + len <= |buf|
    ensures FileAfter(Overlay(file, off, buf, 0, h), off, buf, c, len, env, n) ==
            Overlay(file, off, buf, 0, Max(h, c + Reach(env, len, n)))
  {
    if n > 0 {
      RetriesIdempotent(file, off, buf, h, c, len, env, n - 1);
      OverlayExtends(file, off, buf, Max(h, c + Reach(env, len, n - 1)), c, c + Min(env(n - 1).stored, len));
    }
  }

  /** `hsi_nfs3_write`: `len` bytes of the buffer from `c` on, with the retries of the RPC below it. */
  method WriteChunk(ghost file: seq<byte>, off: nat, buf: seq<byte>, c: nat, len: nat,
                    env: nat -> WriteTry, reconnect: nat -> bool)
    returns (err: int, count: nat, ghost tries: nat, ghost file': seq<byte>)
    requires c + len <= |buf|
    ensures 1 <= tries <= 6 && file' == FileAfter(file, off, buf, c, len, env, tries)
    ensures if err == 0 then Stored(env, tries, len, count) else Refused(env, tries, count)
    ensures err != 0 ==> Reported(env, tries, err)
  {
    var attempts := (k: nat) => Outcome(env(k));
    var ret, n := ClntCall(attempts, reconnect);
    assert forall k: nat :: attempts(k) == Outcome(env(k));
    tries, count := n, 0;
    file' := FileAfter(file, off, buf, c, len, env, tries);
    if ret != 0 {
      return ret, 0, tries, file';
    }
    err := StatToErrno(env(n - 1).status);
    if err == 0 {
      count := Min(env(n - 1).stored, len);
    }
  }

  /** All tries but the last were lost. */
  ghost predicate LostBefore(env: nat -> WriteTry, tries: nat) {
    forall k :: 0 <= k < tries - 1 ==> env(k).Lost?
  }

  /** The last of `tries` tries was answered with NFS3_OK, and `count` is what it stored. */
  ghost predicate Stored(env: nat -> WriteTry, tries: nat, len: nat, count: nat) {
    && 1 <= tries <= 6 && LostBefore(env, tries) && env(tries - 1).Answered? && env(tries - 1).status == NFS3_OK
    && count == Min(env(tries - 1).stored, len)
  }

  /** The last of `tries` tries was lost or answered with another status; nothing is acknowledged. */
  ghost predicate Refused(env: nat -> WriteTry, tries: nat, count: nat) {
    && 1 <= tries <= 6 && LostBefore(env, tries) && (env(tries - 1).Lost? || env(tries - 1).status != NFS3_OK)
    && count == 0
  }

  /** The error number of a refused call. */
  ghost predicate Reported(env: nat -> WriteTry, tries: nat, errno: int)
    requires 1 <= tries
  {
    && errno != 0
    && (env(tries - 1).Lost? ==> errno == if env(tries - 1).recorded != 0 then env(tries - 1).recorded else 5)
    && (env(tries - 1).Answered? ==> StatusErrno(env(tries - 1).status, errno))
  }

  ghost predicate AllTried(reqs: seq<Req>) {
    forall i {:trigger reqs[i].tries} :: 0 <= i < |reqs| ==> reqs[i].tries > 0
  }

  lemma AllTriedMore(reqs: seq<Req>, q: Req)
    requires AllTried(reqs) && q.tries > 0
    ensures AllTried(reqs + [q])
  {
  }

  /** A lower bound on what tries stored, turned around. */
  lemma {:induction false} ReachBound(env: nat -> WriteTry, len: nat, n: nat, count: int)
    requires n > 0
    ensures Reach(env, len, n) <= count <==> forall k :: 0 <= k < n ==> Min(env(k).stored, len) <= count
  {
    if n > 1 {
      ReachBound(env, len, n - 1, count);
    }
  }

  /** One turn of the write loop: the chunk at `cnt` is sent, and the file holds the buffer as far as any try reached. */
  method SendChunk(ghost file: seq<byte>, ghost now: seq<byte>, off: nat, buf: seq<byte>, cnt: nat, size: nat, ghost high: nat,
                   env: nat -> WriteTry, reconnect: nat -> bool)
    returns (err: int, count: nat, ghost tries: nat, ghost high': nat, ghost now': seq<byte>)
    requires cnt <= high <= |buf| && cnt + size <= |buf| && now == Overlay(file, off, buf, 0, high)
    ensures high' == Max(high, cnt + Reach(env, size, tries)) <= |buf| && now' == Overlay(file, off, buf, 0, high')
    ensures cnt + count <= high' && count <= size
    ensures if err == 0 then Stored(env, tries, size, count) else Refused(env, tries, count)
    ensures err != 0 ==> Reported(env, tries, err)
  {
    err, count, tries, now' := WriteChunk(now, off, buf, cnt, size, env, reconnect);
    high' := Max(high, cnt + Reach(env, size, tries));
    RetriesIdempotent(file, off, buf, high, cnt, size, env, tries);
  }

  datatype WriteResult = Written(count: nat) | WriteFailed(errno: int) | WriteWaiting

  // ----- what was sent -----

  /** A request as sent, how much of it the server acknowledged, and in how many tries. */
  datatype Req = Req(off: nat, len: nat, acked: nat, tries: nat)

  function Acked(reqs: seq<Req>): nat {
    if reqs == [] then 0 else Acked(reqs[..|reqs| - 1]) + reqs[|reqs| - 1].acked
  }

  lemma {:induction false} AckedMore(reqs: seq<Req>, q: Req)
    ensures Acked(reqs + [q]) == Acked(reqs) + q.acked
  {
    assert (reqs + [q])[..|reqs|] == reqs;
  }

  /** The request starts where the acknowledged data ends, is no longer than `max`, and not empty unless `max` is zero. */
  ghost predicate Follows(reqs: seq<Req>, off: nat, max: nat, i: nat)
    requires i < |reqs|
  {
    && reqs[i].off == off + Acked(reqs[..i])
    && reqs[i].acked <= reqs[i].len <= max && (max > 0 ==> reqs[i].len > 0)
  }

  ghost predicate Contiguous(reqs: seq<Req>, off: nat, max: nat) {
    forall i {:trigger Follows(reqs, off, max, i)} :: 0 <= i < |reqs| ==> Follows(reqs, off, max, i)
  }

  /** Some request was answered without moving a byte. */
  ghost predicate SomeEmpty(reqs: seq<Req>) {
    exists i :: 0 <= i < |reqs| && reqs[i].acked == 0
  }

  /** `cnt` bytes were moved in as many requests as there are, at least one in each or none in some. */
  ghost predicate Log(reqs: seq<Req>, off: nat, max: nat, cnt: nat) {
    cnt == Acked(reqs) && Contiguous(reqs, off, max) && (|reqs| <= cnt || SomeEmpty(reqs))
  }

  lemma {:induction false} LogMore(reqs: seq<Req>, off: nat, max: nat, cnt: nat, len: nat, count: nat, tries: nat)
    requires Log(reqs, off, max, cnt) && count <= len <= max && (max > 0 ==> len > 0)
    ensures Log(reqs + [Req(off + cnt, len, count, tries)], off, max, cnt + count)
  {
    var more := reqs + [Req(off + cnt, len, count, tries)];
    AckedMore(reqs, Req(off + cnt, len, count, tries));
    forall i | 0 <= i < |more| ensures Follows(more, off, max, i) {
      if i < |reqs| {
        assert Follows(reqs, off, max, i) && more[..i] == reqs[..i];
      } else {
        assert more[..i] == reqs;
      }
    }
    if |reqs| > cnt {
      var i :| 0 <= i < |reqs| && reqs[i].acked == 0;
      assert more[i].acked == 0;
    } else if count == 0 {
      assert more[|reqs|].acked == 0;
    }
  }

  // ----- writing, continued -----

  /** How call `i` went: `reqs[i]` was stored as acknowledged. */
  ghost predicate StoredAt(env: nat -> nat -> WriteTry, reqs: seq<Req>, i: nat)
    requires i < |reqs|
  {
    Stored(env(i), reqs[i].tries, reqs[i].len, reqs[i].acked)
  }

  /** The first `n` calls succeeded. */
  ghost predicate StoredTo(env: nat -> nat -> WriteTry, reqs: seq<Req>, n: nat) {
    n <= |reqs| && forall i {:trigger StoredAt(env, reqs, i)} :: 0 <= i < n ==> StoredAt(env, reqs, i)
  }

  lemma StoredMore(env: nat -> nat -> WriteTry, reqs: seq<Req>, q: Req)
    requires StoredTo(env, reqs, |reqs|)
    ensures StoredTo(env, reqs + [q], |reqs|)
    ensures Stored(env(|reqs|), q.tries, q.len, q.acked) ==> StoredTo(env, reqs + [q], |reqs| + 1)
  {
    var more := reqs + [q];
    forall i | 0 <= i < |reqs| ensures StoredAt(env, more, i) {
      assert StoredAt(env, reqs, i) && more[i] == reqs[i];
    }
  }

  /** The furthest any try of any request reached into the buffer. */
  ghost function Furthest(env: nat -> nat -> WriteTry, reqs: seq<Req>, off: nat): int {
    if reqs == [] then 0
    else
      var n := |reqs| - 1;
      var before, end := Furthest(env, reqs[..n], off), reqs[n].off - off + Reach(env(n), reqs[n].len, reqs[n].tries);
      if before < end then end else before
  }

  lemma {:induction false} FurthestMore(env: nat -> nat -> WriteTry, reqs: seq<Req>, off: nat, q: Req)
    ensures var before, end := Furthest(env, reqs, off), q.off - off + Reach(env(|reqs|), q.len, q.tries);
            Furthest(env, reqs + [q], off) == if before < end then end else before
  {
    assert (reqs + [q])[..|reqs|] == reqs;
  }

  /** Try `k` of request `i` stored nothing of the buffer beyond `count`. */
  ghost predicate Within(env: nat -> nat -> WriteTry, reqs: seq<Req>, off: nat, count: nat, i: nat, k: nat)
    requires i < |reqs|
  {
    reqs[i].off - off + Min(env(i)(k).stored, reqs[i].len) <= count
  }

  /** No try that was made stored anything of the buffer beyond `count`. */
  ghost predicate NothingBeyond(env: nat -> nat -> WriteTry, reqs: seq<Req>, off: nat, count: nat) {
    forall i, k {:trigger Within(env, reqs, off, count, i, k)} ::
      0 <= i < |reqs| && 0 <= k < reqs[i].tries ==> Within(env, reqs, off, count, i, k)
  }

  lemma {:induction false} FurthestBound(env: nat -> nat -> WriteTry, reqs: seq<Req>, off: nat, count: nat)
    requires AllTried(reqs)
    ensures Furthest(env, reqs, off) <= count <==> NothingBeyond(env, reqs, off, count)
  {
    if reqs != [] {
      var n := |reqs| - 1;
      var q, front := reqs[n], reqs[..n];
      FurthestBound(env, front, off, count);
      ReachBound(env(n), q.len, q.tries, count - (q.off - off));
      if Furthest(env, reqs, off) <= count {
        forall i, k | 0 <= i < |reqs| && 0 <= k < reqs[i].tries ensures Within(env, reqs, off, count, i, k) {
          if i < n { assert Within(env, front, off, count, i, k); }
        }
      }
      if NothingBeyond(env, reqs, off, count) {
        forall i, k | 0 <= i < n && 0 <= k < front[i].tries ensures Within(env, front, off, count, i, k) {
          assert Within(env, reqs, off, count, i, k);
        }
        forall k | 0 <= k < q.tries ensures Min(env(n)(k).stored, q.len) <= count - (q.off - off) {
          assert Within(env, reqs, off, count, n, k);
        }
      }
    }
  }

  lemma {:induction false} AckedPrefix(reqs: seq<Req>, i: nat)
    requires i <= |reqs|
    ensures Acked(reqs[..i]) <= Acked(reqs)
  {
    if i < |reqs| {
      assert reqs[..|reqs| - 1][..i] == reqs[..i];
      AckedPrefix(reqs[..|reqs| - 1], i);
    } else {
      assert reqs[..i] == reqs;
    }
  }

  /** Try `k` of request `i` stored nothing unless it was acknowledged. */
  ghost predicate QuietAt(env: nat -> nat -> WriteTry, i: nat, k: nat) {
    env(i)(k).Lost? || env(i)(k).status != NFS3_OK ==> env(i)(k).stored == 0
  }

  /** If no try that was made stored anything without being acknowledged, nothing is stored beyond what is. */
  lemma QuietWithin(env: nat -> nat -> WriteTry, reqs: seq<Req>, off: nat, max: nat, i: nat, k: nat)
    requires Contiguous(reqs, off, max) && i < |reqs| && k < reqs[i].tries && QuietAt(env, i, k)
    requires StoredAt(env, reqs, i) || Refused(env(i), reqs[i].tries, reqs[i].acked)
    ensures Within(env, reqs, off, Acked(reqs), i, k)
  {
    assert Follows(reqs, off, max, i);
    AckedPrefix(reqs, i);
    AckedPrefix(reqs, i + 1);
    assert reqs[..i + 1] == reqs[..i] + [reqs[i]];
    AckedMore(reqs[..i], reqs[i]);
  }

  /** What the write loop knows of its requests: how they went and how far they reached. */
  ghost predicate Books(env: nat -> nat -> WriteTry, reqs: seq<Req>, off: nat, max: nat, cnt: nat, high: nat) {
    Log(reqs, off, max, cnt) && StoredTo(env, reqs, |reqs|) && AllTried(reqs) && high == Furthest(env, reqs, off)
  }

  /** The same after a last request that failed. */
  ghost predicate Failed(env: nat -> nat -> WriteTry, reqs: seq<Req>, off: nat, max: nat, cnt: nat, high: nat, errno: int) {
    && Log(reqs, off, max, cnt) && AllTried(reqs) && high == Furthest(env, reqs, off)
    && reqs != [] && StoredTo(env, reqs, |reqs| - 1)
    && var last := reqs[|reqs| - 1];
    && Refused(env(|reqs| - 1), last.tries, last.acked) && Reported(env(|reqs| - 1), last.tries, errno)
  }

  lemma BooksMore(env: nat -> nat -> WriteTry, reqs: seq<Req>, off: nat, max: nat, cnt: nat, high: nat, q: Req, high': nat, errno: int)
    requires Books(env, reqs, off, max, cnt, high) && q.off == off + cnt
    requires q.acked <= q.len <= max && (max > 0 ==> q.len > 0)
    requires high' == Max(high, cnt + Reach(env(|reqs|), q.len, q.tries))
    ensures Stored(env(|reqs|), q.tries, q.len, q.acked) ==> Books(env, reqs + [q], off, max, cnt + q.acked, high')
    ensures Refused(env(|reqs|), q.tries, q.acked) && Reported(env(|reqs|), q.tries, errno) ==>
              Failed(env, reqs + [q], off, max, cnt, high', errno)
  {
    LogMore(reqs, off, max, cnt, q.len, q.acked, q.tries);
    StoredMore(env, reqs, q);
    FurthestMore(env, reqs, off, q);
    if q.tries > 0 {
      AllTriedMore(reqs, q);
    }
  }

  /** One turn of the loop with its request logged. */
  method WriteTurn(ghost file: seq<byte>, ghost now: seq<byte>, off: nat, buf: seq<byte>, wsize: nat, cnt: nat, ghost high: nat,
                   env: nat -> nat -> WriteTry, reconnect: nat -> bool, call: nat, ghost reqs: seq<Req>)
    returns (err: int, count: nat, ghost high': nat, ghost now': seq<byte>, ghost reqs': seq<Req>)
    requires cnt <= high <= |buf| && cnt < |buf| && now == Overlay(file, off, buf, 0, high)
    requires call == |reqs| && Books(env, reqs, off, wsize, cnt, high)
    ensures |reqs'| == call + 1 && cnt + count <= high' <= |buf| && now' == Overlay(file, off, buf, 0, high')
    ensures err == 0 ==> Books(env, reqs', off, wsize, cnt + count, high')
    ensures err != 0 ==> Failed(env, reqs', off, wsize, cnt, high', err)
  {
    var size := Min(|buf| - cnt, wsize);
    ghost var tries;
    err, count, tries, high', now' := SendChunk(file, now, off, buf, cnt, size, high, env(call), reconnect);
    BooksMore(env, reqs, off, wsize, cnt, high, Req(off + cnt, size, count, tries), high', err);
    reqs' := reqs + [Req(off + cnt, size, count, tries)];
  }

  /** The loop of `hsx_fuse_write`, for as long as the server goes on answering (`calls` times); the last request is
      logged even if it fails. `high` is how much of the buffer the file holds in the end: as far as any try reached,
      which is just what was acknowledged exactly if no try that was made stored anything beyond that. The loop can
      go round for ever only on answers that acknowledge nothing. */
  method Write(ghost file: seq<byte>, off: nat, buf: seq<byte>, wsize: nat,
               env: nat -> nat -> WriteTry, reconnect: nat -> nat -> bool, calls: nat)
    returns (r: WriteResult, ghost file': seq<byte>, ghost high: nat, ghost reqs: seq<Req>)
    ensures Contiguous(reqs, off, wsize) && Acked(reqs) <= high <= |buf|
    ensures file' == Overlay(file, off, buf, 0, high) && high == Furthest(env, reqs, off)
    ensures high == Acked(reqs) <==> NothingBeyond(env, reqs, off, Acked(reqs))
    ensures r.Written? ==> r.count == Acked(reqs) == |buf| && StoredTo(env, reqs, |reqs|)
    ensures r.WriteFailed? ==> Failed(env, reqs, off, wsize, Acked(reqs), high, r.errno)
    ensures r.WriteWaiting? ==> |reqs| == calls && StoredTo(env, reqs, calls) && (calls >= |buf| ==> SomeEmpty(reqs))
  {
    var cnt: nat, call: nat := 0, 0;
    file', high, reqs := file, 0, [];
    while cnt < |buf| && call < calls
      invariant cnt <= high <= |buf| && call == |reqs| <= calls && Books(env, reqs, off, wsize, cnt, high)
      invariant file' == Overlay(file, off, buf, 0, high)
      decreases calls - call
    {
      var err, count;
      err, count, high, file', reqs := WriteTurn(file, file', off, buf, wsize, cnt, high, env, reconnect(call), call, reqs);
      if err != 0 {
        FurthestBound(env, reqs, off, cnt);
        return WriteFailed(err), file', high, reqs;
      }
      cnt := cnt + count;
      call := call + 1;
    }
    FurthestBound(env, reqs, off, cnt);
    r := if cnt < |buf| then WriteWaiting else Written(cnt);
  }

  lemma {:induction false} Appending(file: seq<byte>, b: byte)
    ensures Overlay(file, |file|, [b], 0, 1) == file + [b]
  {
    OverlayBytes(file, |file|, [b], 0, 1);
  }

  lemma LostNotStored(env: nat -> nat -> WriteTry, reqs: seq<Req>)
    requires reqs != [] && forall i, k :: env(i)(k).Lost?
    ensures !StoredAt(env, reqs, 0)
  {
  }

  /** When every answer is lost, the first request fails, and it has reached as far as it stored. */
  lemma {:induction false} AllLost(env: nat -> nat -> WriteTry, reqs: seq<Req>, off: nat, high: nat, errno: int)
    requires forall i, k :: env(i)(k) == Lost(EAGAIN, 1)
    requires Failed(env, reqs, off, 1, Acked(reqs), high, errno)
    ensures |reqs| == 1 && Acked(reqs) == 0 && high > 0 && errno == EAGAIN
  {
    LostNotStored(env, reqs);
    assert reqs[..0] == [] && Follows(reqs, off, 1, 0);
    AckedMore([], reqs[0]);
    assert reqs == [] + [reqs[0]];
    FurthestMore(env, [], off, reqs[0]);
  }

  /** The failing input: a one-byte write whose every answer is lost returns an error with nothing acknowledged, and
      the byte is in the file. */
  method LostWrite(ghost file: seq<byte>, off: nat, b: byte)
    returns (r: WriteResult, ghost file': seq<byte>, ghost high: nat, ghost reqs: seq<Req>)
    requires off == |file|
    ensures r == WriteFailed(EAGAIN) && Acked(reqs) == 0 < high && file' == file + [b]
  {
    var env := (i: nat) => (k: nat) => Lost(EAGAIN, 1);
    r, file', high, reqs := Write(file, off, [b], 1, env, (i: nat) => (k: nat) => true, 1);
    if reqs != [] {
      LostNotStored(env, reqs);
    }
    if r.WriteFailed? {
      AllLost(env, reqs, off, high, r.errno);
      Appending(file, b);
    }
  }

  // ----- reading -----

  /** One try of a READ: lost, or answered with a status, at most `limit` bytes, and the end mark if it is due. */
  datatype ReadTry = NoReply(recorded: int) | Reply(status: int, limit: nat, mark: bool)

  function ReadOutcome(t: ReadTry): Attempt {
    if t.NoReply? then Failure(t.recorded) else Answer
  }

  /** What a server holding `file` has to give at `o`. */
  function Avail(file: seq<byte>, o: nat): nat {
    if o < |file| then |file| - o else 0
  }

  /** The bytes a read of `size` bytes at `off` is to return: all of them, or fewer where the file ends. */
  function Window(file: seq<byte>, off: nat, size: nat): (w: seq<byte>) {
    if off < |file| then file[off..off + Min(size, |file| - off)] else []
  }

  /** The window is the file's bytes, no more than asked for, and short only where the file ends. */
  lemma WindowBytes(file: seq<byte>, off: nat, size: nat)
    ensures var w := Window(file, off, size);
            && |w| <= size && (|w| < size ==> off + |w| >= |file|)
            && forall i :: 0 <= i < |w| ==> off + i < |file| && w[i] == file[off + i]
  {
  }

  /** Full windows that follow each other join. */
  lemma WindowJoins(file: seq<byte>, off: nat, c: nat, k: nat)
    requires |Window(file, off, c)| == c && |Window(file, off + c, k)| == k
    ensures Window(file, off, c + k) == Window(file, off, c) + Window(file, off + c, k)
  {
    if k > 0 {
      assert off + c < |file| && c + k <= |file| - off;
    }
  }

  /** Nothing is due after the end of the file. */
  lemma WindowEnds(file: seq<byte>, off: nat, c: nat, size: nat)
    requires c <= size && (c == size || off + c >= |file|)
    ensures Window(file, off, c) == Window(file, off, size)
  {
  }

  /** The last of `tries` tries was answered with NFS3_OK: `count` bytes, and the end mark if it was sent where due. */
  ghost predicate Served(env: nat -> ReadTry, tries: nat, file: seq<byte>, o: nat, len: nat, count: nat, eof: bool) {
    && 1 <= tries <= 6 && env(tries - 1).Reply? && env(tries - 1).status == NFS3_OK
    && count == Min(env(tries - 1).limit, Min(len, Avail(file, o)))
    && (eof <==> env(tries - 1).mark && o + count >= |file|)
  }

  /** The last of `tries` tries was lost or answered with another status, which the error number tells. */
  ghost predicate Unserved(env: nat -> ReadTry, tries: nat, errno: int) {
    && 1 <= tries <= 6 && (env(tries - 1).NoReply? || env(tries - 1).status != NFS3_OK)
    && errno != 0
    && (env(tries - 1).NoReply? ==> errno == if env(tries - 1).recorded != 0 then env(tries - 1).recorded else 5)
    && (env(tries - 1).Reply? ==> StatusErrno(env(tries - 1).status, errno))
  }

  /** `hsi_nfs3_read`: one chunk, copied into the reply buffer at `at`. */
  method ReadChunk(file: seq<byte>, o: nat, buf: array<byte>, at: nat, len: nat, env: nat -> ReadTry, reconnect: nat -> bool)
    returns (err: int, count: nat, eof: bool, ghost tries: nat)
    requires at + len <= buf.Length
    modifies buf
    ensures if err == 0 then Served(env, tries, file, o, len, count, eof) else Unserved(env, tries, err) && count == 0
    ensures count <= len && buf[..at] == old(buf[..at])
    ensures err == 0 ==> buf[at..at + count] == Window(file, o, count) && |Window(file, o, count)| == count
  {
    var attempts := (k: nat) => ReadOutcome(env(k));
    var ret, n := ClntCall(attempts, reconnect);
    assert forall k: nat :: attempts(k) == ReadOutcome(env(k));
    tries, count, eof := n, 0, false;
    if ret != 0 {
      return ret, 0, false, tries;
    }
    err := StatToErrno(env(n - 1).status);
    if err == 0 {
      count := Min(env(n - 1).limit, Min(len, Avail(file, o)));
      forall i | 0 <= i < count {
        buf[at + i] := file[o + i];
      }
      eof := env(n - 1).mark && o + count >= |file|;
    }
  }

  /** The first `n` bytes of the reply buffer are the file's from `off` on. */
  ghost predicate Got(file: seq<byte>, off: nat, buf: array<byte>, n: nat)
    reads buf
  {
    n <= buf.Length && buf[..n] == Window(file, off, n)
  }

  /** One turn of the read loop: the bytes got so far are followed by those of one more chunk. */
  method ReadMore(file: seq<byte>, off: nat, buf: array<byte>, cnt: nat, len: nat, env: nat -> ReadTry, reconnect: nat -> bool)
    returns (err: int, count: nat, eof: bool, ghost tries: nat)
    requires cnt + len <= buf.Length && Got(file, off, buf, cnt)
    modifies buf
    ensures if err == 0 then Served(env, tries, file, off + cnt, len, count, eof) else Unserved(env, tries, err) && count == 0
    ensures count <= len && (err == 0 ==> Got(file, off, buf, cnt + count))
  {
    err, count, eof, tries := ReadChunk(file, off + cnt, buf, cnt, len, env, reconnect);
    if err == 0 {
      WindowJoins(file, off, cnt, count);
      assert buf[..cnt + count] == buf[..cnt] + buf[cnt..cnt + count];
    }
  }

  datatype ReadResult = Data(bytes: seq<byte>) | ReadFailed(errno: int) | ReadWaiting

  /** How call `i` went: `reqs[i]` was served, with or without the end mark. */
  ghost predicate ServedAt(env: nat -> nat -> ReadTry, file: seq<byte>, reqs: seq<Req>, i: nat, eof: bool)
    requires i < |reqs|
  {
    Served(env(i), reqs[i].tries, file, reqs[i].off, reqs[i].len, reqs[i].acked, eof)
  }

  /** The first `n` calls were served, none of them with the end mark. */
  ghost predicate ServedTo(env: nat -> nat -> ReadTry, file: seq<byte>, reqs: seq<Req>, n: int) {
    n <= |reqs| && forall i {:trigger ServedAt(env, file, reqs, i, false)} :: 0 <= i < n ==> ServedAt(env, file, reqs, i, false)
  }

  lemma ServedMore(env: nat -> nat -> ReadTry, file: seq<byte>, reqs: seq<Req>, q: Req)
    requires ServedTo(env, file, reqs, |reqs|)
    ensures ServedTo(env, file, reqs + [q], |reqs|)
    ensures Served(env(|reqs|), q.tries, file, q.off, q.len, q.acked, false) ==> ServedTo(env, file, reqs + [q], |reqs| + 1)
  {
    var more := reqs + [q];
    forall i | 0 <= i < |reqs| ensures ServedAt(env, file, more, i, false) {
      assert ServedAt(env, file, reqs, i, false) && more[i] == reqs[i];
    }
  }

  /** What the read loop knows of its requests: all were served, the last one with the end mark if `eof`. */
  ghost predicate ReadBooks(env: nat -> nat -> ReadTry, file: seq<byte>, reqs: seq<Req>, off: nat, max: nat, cnt: nat, eof: bool) {
    && Log(reqs, off, max, cnt) && ServedTo(env, file, reqs, if eof then |reqs| - 1 else |reqs|)
    && (eof ==> reqs != [] && ServedAt(env, file, reqs, |reqs| - 1, true))
  }

  /** The same after a last request that failed. */
  ghost predicate ReadBroken(env: nat -> nat -> ReadTry, file: seq<byte>, reqs: seq<Req>, off: nat, max: nat, cnt: nat, errno: int) {
    && Log(reqs, off, max, cnt) && reqs != [] && ServedTo(env, file, reqs, |reqs| - 1)
    && Unserved(env(|reqs| - 1), reqs[|reqs| - 1].tries, errno) && reqs[|reqs| - 1].acked == 0
  }

  /** One turn of the loop with its request logged. */
  method ReadTurn(file: seq<byte>, off: nat, buf: array<byte>, rsize: nat, cnt: nat,
                  env: nat -> nat -> ReadTry, reconnect: nat -> bool, call: nat, ghost reqs: seq<Req>)
    returns (err: int, count: nat, eof: bool, ghost reqs': seq<Req>)
    requires cnt < buf.Length && Got(file, off, buf, cnt) && call == |reqs| && ReadBooks(env, file, reqs, off, rsize, cnt, false)
    modifies buf
    ensures |reqs'| == call + 1 && cnt + count <= buf.Length
    ensures err == 0 ==> Got(file, off, buf, cnt + count) && ReadBooks(env, file, reqs', off, rsize, cnt + count, eof)
    ensures err == 0 && eof ==> off + cnt + count >= |file|
    ensures err != 0 ==> ReadBroken(env, file, reqs', off, rsize, cnt, err)
  {
    var chunk := Min(buf.Length - cnt, rsize);
    ghost var tries;
    err, count, eof, tries := ReadMore(file, off, buf, cnt, chunk, env(call), reconnect);
    ghost var q := Req(off + cnt, chunk, count, tries);
    LogMore(reqs, off, rsize, cnt, chunk, count, tries);
    ServedMore(env, file, reqs, q);
    reqs' := reqs + [q];
  }

  /** The loop of `hsx_fuse_read`, for as long as the server goes on answering (`calls` times); the last request is
      logged even if it fails. The loop can go round for ever only on answers that bring neither a byte nor the
      end mark. */
  method Read(file: seq<byte>, off: nat, size: nat, rsize: nat,
              env: nat -> nat -> ReadTry, reconnect: nat -> nat -> bool, calls: nat)
    returns (r: ReadResult, ghost reqs: seq<Req>)
    ensures Contiguous(reqs, off, rsize)
    ensures r.Data? ==> r.bytes == Window(file, off, size) && |r.bytes| == Acked(reqs)
    ensures r.Data? ==> exists eof :: ReadBooks(env, file, reqs, off, rsize, Acked(reqs), eof)
    ensures r.ReadFailed? ==> ReadBroken(env, file, reqs, off, rsize, Acked(reqs), r.errno)
    ensures r.ReadWaiting? ==> |reqs| == calls && ServedTo(env, file, reqs, calls) && (calls >= size ==> SomeEmpty(reqs))
  {
    var buf := new byte[size];
    var cnt: nat, call: nat, eof := 0, 0, false;
    reqs := [];
    while cnt < size && !eof && call < calls
      invariant cnt <= size && call == |reqs| <= calls && ReadBooks(env, file, reqs, off, rsize, cnt, eof)
      invariant Got(file, off, buf, cnt) && (eof ==> off + cnt >= |file|)
      decreases calls - call
    {
      var err, count, last;
      err, count, last, reqs := ReadTurn(file, off, buf, rsize, cnt, env, reconnect(call), call, reqs);
      if err != 0 {
        return ReadFailed(err), reqs;
      }
      cnt, eof, call := cnt + count, last, call + 1;
    }
    if cnt < size && !eof {
      return ReadWaiting, reqs;
    }
    WindowEnds(file, off, cnt, size);
    r := Data(buf[..cnt]);
  }
}
