/**
 * qemu_fd_getpagesize: the page size that mappings of a descriptor use.
 * The replies fstatfs gives, one per call, are a parameter: the host
 * decides them.
 */
module PageSize {

  /** The f_type that statfs reports for a hugetlbfs mount. */
  const HUGETLBFS_MAGIC: int := 0x958458f6
  /** The errno of a system call interrupted by a signal. */
  const EINTR: int := 4

  /** The outcome of one fstatfs call: -1 with errno, or 0 with the statfs record. */
  datatype StatfsReply = StatfsError(errno: int) | StatfsOk(fType: int, bSize: nat)

  /** A reply that makes the caller try again. */
  predicate Interrupted(r: StatfsReply) {
    r.StatfsError? && r.errno == EINTR
  }

  /** The host eventually gives a reply that is not an interruption. */
  predicate HasAnswer(replies: seq<StatfsReply>) {
    exists i :: 0 <= i < |replies| && !Interrupted(replies[i])
  }

  /** The index of the first reply that ends the retry loop. */
  function FirstAnswer(replies: seq<StatfsReply>): (i: nat)
    requires HasAnswer(replies)
    ensures i < |replies| && !Interrupted(replies[i])
    ensures forall j :: 0 <= j < i ==> Interrupted(replies[j])
  {
    if !Interrupted(replies[0]) then 0
    else
      var k :| 0 <= k < |replies| && !Interrupted(replies[k]);
      assert !Interrupted(replies[1..][k - 1]);
      1 + FirstAnswer(replies[1..])
  }

  /**
   * The page size of `fd`: the block size of a hugetlbfs file system, the
   * host page size for anything else, for a failed query, or when there is
   * no descriptor (`-1`).
   */
  function DetectedPageSize(fd: int, replies: seq<StatfsReply>, hostPageSize: nat): nat
    requires fd != -1 ==> HasAnswer(replies)
  {
    if fd == -1 then hostPageSize
    else
      match replies[FirstAnswer(replies)]
      case StatfsOk(fType, bSize) => if fType == HUGETLBFS_MAGIC then bSize else hostPageSize
      case StatfsError(_) => hostPageSize
  }

  /** The retry loop of qemu_fd_getpagesize, one fstatfs reply per iteration. */
  method FdGetPageSize(fd: int, replies: seq<StatfsReply>, hostPageSize: nat) returns (pageSize: nat)
    requires fd != -1 ==> HasAnswer(replies)
    ensures pageSize == DetectedPageSize(fd, replies, hostPageSize)
  {
    if fd != -1 {
      var i := 0;
      var reply := replies[0];
      while Interrupted(reply)
        invariant 0 <= i <= FirstAnswer(replies)
        invariant reply == replies[i]
        decreases FirstAnswer(replies) - i
      {
        i := i + 1;
        reply := replies[i];
      }
      if reply.StatfsOk? && reply.fType == HUGETLBFS_MAGIC {
        return reply.bSize;
      }
    }
    return hostPageSize;
  }

  /** An interrupted call is simply retried: it does not change the answer. */
  lemma RetryAfterInterrupt(fd: int, replies: seq<StatfsReply>, hostPageSize: nat)
    requires fd != -1 && HasAnswer(replies)
    ensures HasAnswer([StatfsError(EINTR)] + replies)
    ensures DetectedPageSize(fd, [StatfsError(EINTR)] + replies, hostPageSize)
         == DetectedPageSize(fd, replies, hostPageSize)
  {
    var all := [StatfsError(EINTR)] + replies;
    var k := FirstAnswer(replies);
    assert !Interrupted(all[k + 1]);
    assert all[1..] == replies;
  }

  /** Once a reply ends the loop, the host's later replies are never asked for. */
  lemma {:induction false} LaterRepliesUnused(fd: int, replies: seq<StatfsReply>, later: seq<StatfsReply>, hostPageSize: nat)
    requires fd != -1 && HasAnswer(replies)
    ensures HasAnswer(replies + later)
    ensures FirstAnswer(replies + later) == FirstAnswer(replies)
    ensures DetectedPageSize(fd, replies + later, hostPageSize)
         == DetectedPageSize(fd, replies, hostPageSize)
  {
    var k := FirstAnswer(replies);
    assert (replies + later)[k] == replies[k];
    if k > 0 {
      assert replies[1..] + later == (replies + later)[1..];
      assert !Interrupted(replies[1..][k - 1]);
      LaterRepliesUnused(fd, replies[1..], later, hostPageSize);
    }
  }
}
