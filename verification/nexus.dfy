/**
 * The monitor list of src/nexus.c: the array of `struct pollfd` that the
 * event loop hands to `poll`. `watch_add` puts a descriptor in the first
 * cleared slot, or grows the array by one; `watch_remove` clears every slot
 * holding a descriptor, leaving it for reuse. The array and its count are
 * modelled as a sequence; the growth allocation is an input.
 */
module Nexus {
  import opened Wrappers

  /** `POLLIN` from <poll.h>. */
  const POLLIN: int := 1
  /** The descriptor of a cleared slot. */
  const FREE: int := -1

  /** `struct pollfd`. */
  datatype PollFd = PollFd(fd: int, events: int, revents: int)

  /** The index of the first cleared slot, if any. */
  function FirstFree(list: seq<PollFd>): (r: Option<nat>)
    ensures r.Some? ==> r.value < |list| && list[r.value].fd == FREE
    ensures r.Some? ==> forall j | 0 <= j < r.value :: list[j].fd != FREE
    ensures r.None? ==> forall j | 0 <= j < |list| :: list[j].fd != FREE
  {
    if |list| == 0 then None
    else if list[0].fd == FREE then Some(0)
    else match FirstFree(list[1..]) case None => None case Some(k) => Some(k + 1)
  }

  /** The descriptors being watched: those of slots not cleared. */
  function Watched(list: seq<PollFd>): set<int> {
    set j | 0 <= j < |list| && list[j].fd != FREE :: list[j].fd
  }

  /**
   * What `watch_add` leaves: the first cleared slot takes the descriptor
   * and POLLIN (its `revents` is left as it was); with no cleared slot the
   * array grows by one slot, whose `revents` is whatever `realloc` left
   * there, `stale`; when that allocation fails, -1 and nothing changes.
   */
  function Added(list: seq<PollFd>, fd: int, grow: bool, stale: int): (seq<PollFd>, int) {
    match FirstFree(list)
    case Some(k) => (list[k := list[k].(fd := fd, events := POLLIN)], 0)
    case None => if grow then (list + [PollFd(fd, POLLIN, stale)], 0) else (list, -1)
  }

  /** What `watch_remove` leaves: every slot holding the descriptor cleared. */
  function Removed(list: seq<PollFd>, fd: int): (r: seq<PollFd>)
    ensures |r| == |list|
    ensures forall j | 0 <= j < |list| :: r[j] == if list[j].fd == fd then PollFd(FREE, 0, 0) else list[j]
  {
    if |list| == 0 then []
    else [if list[0].fd == fd then PollFd(FREE, 0, 0) else list[0]] + Removed(list[1..], fd)
  }

  /** `watch_add`. */
  method WatchAdd(list: seq<PollFd>, fd: int, grow: bool, stale: int) returns (res: seq<PollFd>, code: int)
    ensures (res, code) == Added(list, fd, grow, stale)
    ensures code == 0 ==> exists j | 0 <= j < |res| ::
      && res[j].fd == fd && res[j].events == POLLIN
      && forall k | 0 <= k < |list| && k != j :: res[k] == list[k]
    ensures FirstFree(list).Some? ==> code == 0 && |res| == |list|
    ensures code == -1 ==> res == list && !grow
    ensures |list| <= |res| <= |list| + 1
    ensures |res| == |list| + 1 ==> forall j | 0 <= j < |list| :: list[j].fd != FREE
  {
    var i := 0;
    while i < |list|
      invariant 0 <= i <= |list|
      invariant forall j | 0 <= j < i :: list[j].fd != FREE
    {
      if list[i].fd == FREE {
        res := list[i := list[i].(fd := fd, events := POLLIN)];
        code := 0;
        assert res[i].fd == fd;
        return;
      }
      i := i + 1;
    }
    if !grow {
      return list, -1;
    }
    res := list + [PollFd(fd, POLLIN, stale)];
    code := 0;
    assert res[|list|].fd == fd && forall k | 0 <= k < |list| :: res[k] == list[k];
  }

  /** `watch_remove`. */
  method WatchRemove(list: seq<PollFd>, fd: int) returns (res: seq<PollFd>)
    ensures res == Removed(list, fd)
    ensures fd != FREE ==> fd !in Watched(res)
  {
    res := list;
    var i := 0;
    while i < |list|
      invariant 0 <= i <= |list| && |res| == |list|
      invariant forall j | 0 <= j < i :: res[j] == if list[j].fd == fd then PollFd(FREE, 0, 0) else list[j]
      invariant forall j | i <= j < |list| :: res[j] == list[j]
    {
      if res[i].fd == fd {
        res := res[i := PollFd(FREE, 0, 0)];
      }
      i := i + 1;
    }
  }

  /** A descriptor added successfully is watched, along with everything watched before. */
  lemma AddWatches(list: seq<PollFd>, fd: int, grow: bool, stale: int)
    requires fd != FREE
    ensures var (res, code) := Added(list, fd, grow, stale);
      code == 0 ==> Watched(res) == Watched(list) + {fd}
    ensures var (res, code) := Added(list, fd, grow, stale);
      code == -1 <==> FirstFree(list).None? && !grow
  {
    var (res, code) := Added(list, fd, grow, stale);
    if code == 0 {
      match FirstFree(list)
      case Some(k) =>
        assert res[k].fd == fd;
        forall x | x in Watched(res) ensures x in Watched(list) + {fd} {
          var j :| 0 <= j < |res| && res[j].fd != FREE && res[j].fd == x;
          if j != k { assert list[j] == res[j]; }
        }
        forall x | x in Watched(list) ensures x in Watched(res) {
          var j :| 0 <= j < |list| && list[j].fd != FREE && list[j].fd == x;
          assert j != k && res[j] == list[j];
        }
      case None =>
        assert res[|list|].fd == fd;
        forall x | x in Watched(res) ensures x in Watched(list) + {fd} {
          var j :| 0 <= j < |res| && res[j].fd != FREE && res[j].fd == x;
          if j < |list| { assert list[j] == res[j]; }
        }
        forall x | x in Watched(list) ensures x in Watched(res) {
          var j :| 0 <= j < |list| && list[j].fd != FREE && list[j].fd == x;
          assert res[j] == list[j];
        }
    }
  }

  /** Removing a descriptor unwatches it and nothing else, and keeps the array's size. */
  lemma RemoveUnwatches(list: seq<PollFd>, fd: int)
    requires fd != FREE
    ensures Watched(Removed(list, fd)) == Watched(list) - {fd}
    ensures |Removed(list, fd)| == |list|
  {
    var res := Removed(list, fd);
    forall x | x in Watched(list) - {fd} ensures x in Watched(res) {
      var j :| 0 <= j < |list| && list[j].fd != FREE && list[j].fd == x;
      assert res[j] == list[j];
    }
  }

  /** Removing a descriptor no slot holds changes nothing. */
  lemma RemoveAbsentIsNoop(list: seq<PollFd>, fd: int)
    requires fd != FREE && fd !in Watched(list)
    ensures Removed(list, fd) == list
  {
    assert forall j | 0 <= j < |list| && list[j].fd != FREE :: list[j].fd in Watched(list);
  }

  /** Removing twice is removing once. */
  lemma RemoveIdempotent(list: seq<PollFd>, fd: int)
    requires fd != FREE
    ensures Removed(Removed(list, fd), fd) == Removed(list, fd)
  {
  }

  /** A slot cleared by a removal is reused by the next addition: the array does not grow. */
  lemma RemoveThenAddReuses(list: seq<PollFd>, fd: int, next: int, grow: bool, stale: int)
    requires fd != FREE && fd in Watched(list)
    ensures var (res, code) := Added(Removed(list, fd), next, grow, stale);
      code == 0 && |res| == |list|
  {
    var j :| 0 <= j < |list| && list[j].fd != FREE && list[j].fd == fd;
    var cleared := Removed(list, fd);
    assert cleared[j].fd == FREE;
  }
}
