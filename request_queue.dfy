/**
 * The request queue and decode driver of `VideoPreviewer`, as pure
 * transitions on its two fields: `queue`, the FIFO of timestamps awaiting a
 * decode, and `waiting_timestamp`, the timestamp of the last seek issued.
 * `pipeline.seek` is the oracle `seek`: whether the pipeline accepts a seek to
 * a timestamp.
 */
module RequestQueue {
  import opened Wrappers

  datatype Driver = Driver(queue: seq<int>, waiting: Option<int>)

  predicate NoDuplicates(q: seq<int>)
  {
    forall i, j :: 0 <= i < j < |q| ==> q[i] != q[j]
  }

  /**
   * The driver's invariant: each timestamp is queued at most once, and a
   * non-empty queue's head is the timestamp being decoded, so at most one
   * seek is outstanding.
   */
  predicate DriverInvariant(s: Driver)
  {
    NoDuplicates(s.queue) && (s.queue != [] ==> s.waiting == Some(s.queue[0]))
  }

  /**
   * `_nextThumbnail`: try to seek to the head; on rejection drop the head and
   * try the next one. `_startThumbnail` records the head as waiting before
   * the seek, whatever its outcome.
   */
  function Advance(s: Driver, seek: int -> bool): (r: Driver)
    ensures |r.queue| <= |s.queue|
    ensures s.queue != [] ==> r.waiting.Some? && r.waiting.value in s.queue
    decreases |s.queue|
  {
    if s.queue == [] then s
    else if seek(s.queue[0]) then Driver(s.queue, Some(s.queue[0]))
    else Advance(Driver(s.queue[1..], Some(s.queue[0])), seek)
  }

  /** The timestamps `Advance` seeks to, in order. */
  function Attempts(q: seq<int>, seek: int -> bool): (r: seq<int>)
    ensures |r| <= |q| && (r != [] ==> r[0] == q[0])
    ensures q != [] ==> r != []
  {
    if q == [] then []
    else if seek(q[0]) then [q[0]]
    else [q[0]] + Attempts(q[1..], seek)
  }

  /**
   * `Advance` drops exactly the rejected heads: what remains is a suffix of
   * the queue whose head, if any, was accepted.
   */
  lemma {:induction false} AdvanceDropsRejectedHeads(s: Driver, seek: int -> bool)
    ensures |Advance(s, seek).queue| <= |s.queue|
    ensures Advance(s, seek).queue == s.queue[|s.queue| - |Advance(s, seek).queue|..]
    ensures forall i :: 0 <= i < |s.queue| - |Advance(s, seek).queue| ==> !seek(s.queue[i])
    ensures Advance(s, seek).queue != [] ==> seek(Advance(s, seek).queue[0])
    decreases |s.queue|
  {
    var q := s.queue;
    if q != [] && !seek(q[0]) {
      var s' := Driver(q[1..], Some(q[0]));
      AdvanceDropsRejectedHeads(s', seek);
      var r := Advance(s', seek);
      assert q[1..][|q[1..]| - |r.queue|..] == q[|q| - |r.queue|..];
      forall i | 0 <= i < |q| - |r.queue| ensures !seek(q[i]) {
        if i > 0 { assert q[i] == q[1..][i - 1]; }
      }
    }
  }

  /**
   * After `Advance` the waiting timestamp is the head that was accepted, or,
   * when every seek was rejected, the last one tried; an empty queue leaves
   * the driver as it was.
   */
  lemma {:induction false} AdvanceWaiting(s: Driver, seek: int -> bool)
    ensures Advance(s, seek).queue != [] ==> Advance(s, seek).waiting == Some(Advance(s, seek).queue[0])
    ensures Advance(s, seek).queue == [] && s.queue != [] ==> Advance(s, seek).waiting == Some(s.queue[|s.queue| - 1])
    ensures s.queue == [] ==> Advance(s, seek) == s
    decreases |s.queue|
  {
    var q := s.queue;
    if q != [] && !seek(q[0]) {
      AdvanceWaiting(Driver(q[1..], Some(q[0])), seek);
    }
  }

  /** The seeks issued are the dropped heads followed by the accepted one, if any. */
  lemma {:induction false} AttemptsAreDroppedThenAccepted(s: Driver, seek: int -> bool)
    ensures var r := Advance(s, seek);
      && |r.queue| <= |s.queue|
      && Attempts(s.queue, seek) == if r.queue == [] then s.queue else s.queue[..|s.queue| - |r.queue| + 1]
    decreases |s.queue|
  {
    var q := s.queue;
    if q != [] && !seek(q[0]) {
      var s' := Driver(q[1..], Some(q[0]));
      AttemptsAreDroppedThenAccepted(s', seek);
      var r := Advance(s', seek);
      assert Advance(s, seek) == r;
      var tail := Attempts(q[1..], seek);
      assert Attempts(q, seek) == [q[0]] + tail;
      if r.queue != [] {
        var k := |q| - |r.queue|;
        assert tail == q[1..][..k];
        assert [q[0]] + q[1..][..k] == q[..k + 1];
      } else {
        assert tail == q[1..];
        assert [q[0]] + q[1..] == q;
      }
    }
  }

  lemma {:induction false} SuffixNoDuplicates(q: seq<int>, k: nat)
    requires NoDuplicates(q) && k <= |q|
    ensures NoDuplicates(q[k..])
  {
    forall i, j | 0 <= i < j < |q[k..]| ensures q[k..][i] != q[k..][j] {
      assert q[k..][i] == q[k + i] && q[k..][j] == q[k + j];
    }
  }

  /** Advancing a duplicate-free queue establishes the driver invariant. */
  lemma AdvanceEstablishesInvariant(s: Driver, seek: int -> bool)
    requires NoDuplicates(s.queue)
    ensures DriverInvariant(Advance(s, seek))
  {
    AdvanceDropsRejectedHeads(s, seek);
    AdvanceWaiting(s, seek);
    SuffixNoDuplicates(s.queue, |s.queue| - |Advance(s, seek).queue|);
  }

  /**
   * `_requestThumbnail`: a queued time is ignored; otherwise it is appended,
   * and only a queue that was empty starts seeking.
   */
  function Request(s: Driver, time: int, seek: int -> bool): (r: Driver)
    ensures |r.queue| <= |s.queue| + 1
    ensures forall x :: x in r.queue ==> x in s.queue || x == time
  {
    if time in s.queue then s
    else if s.queue != [] then Driver(s.queue + [time], s.waiting)
    else Advance(Driver([time], s.waiting), seek)
  }

  /** The seeks `_requestThumbnail` issues: none unless the queue was empty and the time new. */
  function RequestAttempts(s: Driver, time: int, seek: int -> bool): (r: seq<int>)
    ensures r == if time in s.queue || s.queue != [] then [] else [time]
  {
    if time in s.queue || s.queue != [] then [] else assert [time][1..] == []; Attempts([time], seek)
  }

  lemma AppendNoDuplicates(q: seq<int>, x: int)
    requires NoDuplicates(q) && x !in q
    ensures NoDuplicates(q + [x])
  {
    forall i, j | 0 <= i < j < |q + [x]| ensures (q + [x])[i] != (q + [x])[j] {
      if j == |q| {
        assert (q + [x])[i] == q[i];
      } else {
        assert (q + [x])[i] == q[i] && (q + [x])[j] == q[j];
      }
    }
  }

  /**
   * A request keeps the invariant; afterwards the time is queued unless it
   * was the sole request and its seek was rejected; a time already queued
   * leaves everything unchanged, a new one goes to the tail behind the
   * untouched queue, and a seek is issued only if the queue was empty.
   */
  lemma RequestKeepsInvariant(s: Driver, time: int, seek: int -> bool)
    requires DriverInvariant(s)
    ensures var r := Request(s, time, seek);
      && DriverInvariant(r)
      && (time in s.queue ==> r == s)
      && (time !in s.queue && s.queue != [] ==> r.queue == s.queue + [time] && r.waiting == s.waiting)
      && (time in r.queue || (s.queue == [] && r.queue == [] && !seek(time) && r.waiting == Some(time)))
      && (forall x :: x in r.queue ==> x in s.queue || x == time)
      && (RequestAttempts(s, time, seek) != [] ==> s.queue == [])
  {
    if time !in s.queue {
      if s.queue != [] {
        AppendNoDuplicates(s.queue, time);
      } else {
        AdvanceEstablishesInvariant(Driver([time], s.waiting), seek);
        AdvanceWaiting(Driver([time], s.waiting), seek);
        AdvanceWaiting(Driver([], Some(time)), seek);
      }
    }
  }

  /**
   * Requesting a time a second time, with the pipeline answering `seek1` to
   * the first request and `seek2` to the second. While the time is still
   * queued the second request changes nothing and issues no seek. If instead
   * the first request's own seek was rejected, the time left the queue, and
   * the second request acts exactly as a first request on the original,
   * empty queue would under the new answers: it seeks the time again.
   */
  lemma RequestIdempotent(s: Driver, time: int, seek1: int -> bool, seek2: int -> bool)
    ensures var r := Request(s, time, seek1);
      && (time in r.queue ==> Request(r, time, seek2) == r && RequestAttempts(r, time, seek2) == [])
      && (time !in r.queue ==>
            && s.queue == [] && r.queue == [] && !seek1(time)
            && Request(r, time, seek2) == Request(s, time, seek2)
            && RequestAttempts(r, time, seek2) == RequestAttempts(s, time, seek2) == [time])
  {
    if time !in s.queue && s.queue == [] {
      AdvanceWaiting(Driver([time], s.waiting), seek1);
      var r := Request(s, time, seek1);
      if time !in r.queue {
        AdvanceWaiting(Driver([time], r.waiting), seek2);
        AdvanceWaiting(Driver([time], s.waiting), seek2);
        assert [time][1..] == [];
        assert Attempts([time], seek2) == [time];
        assert RequestAttempts(r, time, seek2) == Attempts([time], seek2);
      }
    }
  }

  /**
   * The second request after a rejection does seek again: a pipeline that
   * rejects the first seek to 7 and accepts the second ends with 7 queued
   * and waiting, where a single request left the queue empty.
   */
  lemma RejectedRequestIsRetried(seek1: int -> bool, seek2: int -> bool)
    requires !seek1(7) && seek2(7)
    ensures Request(Driver([], None), 7, seek1) == Driver([], Some(7))
    ensures Request(Request(Driver([], None), 7, seek1), 7, seek2) == Driver([7], Some(7))
  {
    assert [7][1..] == [];
  }

  /** The position of the first occurrence of `x`. */
  function IndexOf(q: seq<int>, x: int): (i: nat)
    requires x in q
    ensures i < |q| && q[i] == x && x !in q[..i]
  {
    if q[0] == x then 0
    else
      var j := IndexOf(q[1..], x);
      assert q[..j + 1] == [q[0]] + q[1..][..j];
      j + 1
  }

  /** Python's `list.remove`: drops the first occurrence of `x`. */
  function RemoveFirst(q: seq<int>, x: int): (r: seq<int>)
    ensures x !in q ==> r == q
    ensures x in q ==> |r| == |q| - 1
  {
    if q == [] then []
    else if q[0] == x then q[1..]
    else [q[0]] + RemoveFirst(q[1..], x)
  }

  /** Removal cuts out exactly the first occurrence and keeps the rest in order. */
  lemma {:induction false} RemoveFirstCutsFirstOccurrence(q: seq<int>, x: int)
    requires x in q
    ensures RemoveFirst(q, x) == q[..IndexOf(q, x)] + q[IndexOf(q, x) + 1..]
  {
    if q[0] != x {
      RemoveFirstCutsFirstOccurrence(q[1..], x);
      var j := IndexOf(q[1..], x);
      assert IndexOf(q, x) == j + 1;
      assert RemoveFirst(q, x) == [q[0]] + RemoveFirst(q[1..], x);
      assert q[..j + 1] == [q[0]] + q[1..][..j];
      assert q[j + 2..] == q[1..][j + 1..];
    }
  }

  /** The queue once `_finishThumbnail` has removed the waiting timestamp's entry, if queued. */
  function Retire(s: Driver): (r: seq<int>)
    ensures |r| <= |s.queue|
    ensures s.waiting.Some? && s.waiting.value in s.queue ==> |r| == |s.queue| - 1
    ensures !(s.waiting.Some? && s.waiting.value in s.queue) ==> r == s.queue
  {
    match s.waiting
    case Some(t) => if t in s.queue then RemoveFirst(s.queue, t) else s.queue
    case None => s.queue
  }

  /**
   * `_finishThumbnail`'s effect on the driver: the waiting timestamp is
   * cleared, its entry leaves the queue, and the next head is started.
   */
  function Complete(s: Driver, seek: int -> bool): (r: Driver)
    ensures |r.queue| <= |s.queue|
    ensures s.waiting.Some? && s.waiting.value in s.queue ==> |r.queue| < |s.queue|
  {
    Advance(Driver(Retire(s), None), seek)
  }

  /**
   * Under the invariant, completion retires exactly the head: the rest of
   * the queue is advanced in order and the invariant holds again. An empty
   * queue stays empty with nothing waiting.
   */
  lemma CompleteRetiresHead(s: Driver, seek: int -> bool)
    requires DriverInvariant(s)
    ensures Retire(s) == if s.queue == [] then [] else s.queue[1..]
    ensures s.queue == [] ==> Complete(s, seek) == Driver([], None)
    ensures DriverInvariant(Complete(s, seek))
  {
    if s.queue != [] {
      var q := s.queue;
      assert q[0] in q;
      assert RemoveFirst(q, q[0]) == q[1..];
      SuffixNoDuplicates(q, 1);
      AdvanceEstablishesInvariant(Driver(q[1..], None), seek);
    } else {
      assert s.waiting.Some? ==> s.waiting.value !in s.queue;
    }
  }

  /**
   * With `[5, 10, 15]` queued and the seek to 5 rejected, 10 is sought next
   * and becomes the waiting timestamp; when its frame arrives, 15 follows and
   * 5 is never sought again.
   */
  lemma RejectedHeadIsSkipped(w: Option<int>, seek: int -> bool, later: int -> bool)
    requires !seek(5) && seek(10) && later(15)
    ensures Advance(Driver([5, 10, 15], w), seek) == Driver([10, 15], Some(10))
    ensures Attempts([5, 10, 15], seek) == [5, 10]
    ensures Complete(Driver([10, 15], Some(10)), later) == Driver([15], Some(15))
    ensures Attempts(Retire(Driver([10, 15], Some(10))), later) == [15]
  {
    assert [5, 10, 15][1..] == [10, 15];
    assert [10, 15][1..] == [15];
    assert RemoveFirst([10, 15], 10) == [15];
  }
}
