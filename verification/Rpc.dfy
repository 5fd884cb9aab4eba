/** One RPC with its retries, and the errors it can end in (nfs3/hsi_nfs3_mount.c, nfs3/hsi_nfs3_unlink.c). */
module Rpc {
  import opened Basics

  const NFS3_OK: int := 0

  /** One attempt: an answer, or a failure with the error number the RPC library recorded. */
  datatype Attempt = Answer | Failure(recorded: int)

  /** `hsi_rpc_stat_to_errno` */
  function FailureErrno(recorded: int): (e: int)
    ensures e == if recorded != 0 then recorded else 5
  {
    if recorded == 0 then EIO else recorded
  }

  predicate Broken(e: int) {
    e == ENOTCONN || e == ECONNRESET
  }

  /** Whether the loop goes round again after a failed try: a transient error, or a broken connection made anew. */
  predicate Again(a: Attempt, reconnected: bool) {
    a.Failure? && (FailureErrno(a.recorded) == EAGAIN || (Broken(FailureErrno(a.recorded)) && reconnected))
  }

  /** `hsi_nfs3_clnt_call`: the tries of one call and what it returns. */
  method ClntCall(attempt: nat -> Attempt, reconnect: nat -> bool) returns (ret: int, tries: nat)
    ensures 1 <= tries <= 6
    ensures ret == 0 <==> attempt(tries - 1).Answer?
    ensures ret != 0 ==> ret == FailureErrno(attempt(tries - 1).recorded)
    ensures forall k :: 0 <= k < tries - 1 ==> Again(attempt(k), reconnect(k))
    ensures tries < 6 ==> !Again(attempt(tries - 1), reconnect(tries - 1))
    ensures forall k :: 0 <= k < tries - 1 ==>
              attempt(k).Failure? && (attempt(k).recorded == 11 || (attempt(k).recorded in {104, 107} && reconnect(k)))
    ensures tries < 6 && attempt(tries - 1).Failure? ==>
              var e := attempt(tries - 1).recorded; e != 11 && (e in {104, 107} ==> !reconnect(tries - 1))
  {
    var rtry := 0;
    while true
      invariant 0 <= rtry <= 5
      invariant forall k :: 0 <= k < rtry ==> Again(attempt(k), reconnect(k))
      decreases 5 - rtry
    {
      var st := attempt(rtry);
      if st.Answer? {
        return 0, rtry + 1;
      }
      ret := FailureErrno(st.recorded);
      if rtry >= 5 {
        return ret, rtry + 1;
      } else if ret == EAGAIN {
        rtry := rtry + 1;
      } else if Broken(ret) && reconnect(rtry) {
        rtry := rtry + 1;
      } else {
        return ret, rtry + 1;
      }
    }
  }

  /** `nfs_errtbl` without its last row, on a system that has no EWFLUSH. */
  const ERR_TABLE: seq<(int, int)> :=
    [(0, 0), (1, 1), (2, 2), (5, 5), (6, 6), (13, 13), (17, 17), (18, 18), (19, 19), (20, 20), (21, 21), (22, 22),
     (27, 27), (28, 28), (30, 30), (31, 31), (63, 36), (66, 39), (69, 122), (70, 116), (71, 66)]

  /** The error number of a status: the one the table pairs with it, or EIO if the table has no such row. */
  ghost predicate StatusErrno(stat: int, errno: int) {
    || (exists i :: 0 <= i < |ERR_TABLE| && ERR_TABLE[i] == (stat, errno))
    || (errno == 5 && forall i :: 0 <= i < |ERR_TABLE| ==> ERR_TABLE[i].0 != stat)
  }

  /** `hsi_nfs3_stat_to_errno`: zero for NFS3_OK and for nothing else; what the table lacks is an I/O error. */
  method StatToErrno(stat: int) returns (errno: int)
    ensures errno == 0 <==> stat == NFS3_OK
    ensures StatusErrno(stat, errno)
  {
    var i := 0;
    while i < |ERR_TABLE|
      invariant 0 <= i <= |ERR_TABLE| && forall j :: 0 <= j < i ==> ERR_TABLE[j].0 != stat
    {
      if ERR_TABLE[i].0 == stat {
        return ERR_TABLE[i].1;
      }
      i := i + 1;
    }
    assert ERR_TABLE[0].0 == NFS3_OK;
    return EIO;
  }
}
