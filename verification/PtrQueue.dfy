/**
 The cross-thread pointer queue of a context: a non-blocking pipe, an overflow buffer under a
 lock, and a drain thread that is started on demand. Sizes are counted in pointers.
 */
module PtrQueue {
  import Arrays

  type Ptr = int

  const MAX_MSGS: nat := 1024       // DAP_QUEUE_MAX_MSGS
  const PIPE_BUF_PTRS: nat := 512   // PIPE_BUF / sizeof(void*)

  /** All that the threads share; `sent` is every pointer ever handed in, in lock order. */
  datatype Queue = Queue(sent: seq<Ptr>, dispatched: seq<Ptr>, pipe: seq<Ptr>, buf: seq<Ptr>, capacity: nat,
                         drainers: nat, lost: nat) {
    function Arrived(): seq<Ptr> { dispatched + pipe + buf }
  }

  const EMPTY := Queue([], [], [], [], MAX_MSGS, 0, 0)

  /** One critical section. What the kernel answers is part of the event. */
  datatype Event =
    | Send(ptr: Ptr, written: bool, started: bool)
    | DrainWrote(count: nat)
    | DrainAgain
    | DrainFailed
    | Read(count: nat)

  function Capacity(q: Queue): (c: nat)
    ensures |q.buf| <= q.capacity && q.capacity >= MAX_MSGS ==> c > |q.buf| && c >= MAX_MSGS
  {
    if q.buf == [] then q.capacity
    else if q.capacity < |q.buf| + 1 then q.capacity + MAX_MSGS
    else if |q.buf| + 1 <= MAX_MSGS / 2 && q.capacity > MAX_MSGS then MAX_MSGS
    else q.capacity
  }

  /**
   The buffer grows by one block exactly when it is full, falls back to one block when a half of that
   will do, and is left alone otherwise; so its size is always a whole number of blocks.
   */
  lemma CapacityMeans(q: Queue)
    requires q.buf != [] && |q.buf| <= q.capacity && q.capacity % 1024 == 0 && q.capacity > 0
    ensures var c := Capacity(q);
            && c % 1024 == 0 && c > |q.buf|
            && (c > q.capacity <==> |q.buf| == q.capacity) && c <= q.capacity + 1024
            && (c < q.capacity <==> |q.buf| < 512 && q.capacity > 1024) && (c < q.capacity ==> c == 1024)
  {
  }

  function Sent(q: Queue, p: Ptr, written: bool, started: bool): Queue {
    var q := q.(sent := q.sent + [p]);
    if q.buf == [] && written then q.(pipe := q.pipe + [p])
    else if q.buf == [] && !started then q.(lost := q.lost + 1)
    else q.(drainers := q.drainers + (if q.buf == [] then 1 else 0), capacity := Capacity(q), buf := q.buf + [p])
  }

  function Drained(q: Queue, count: nat): Queue
    requires count <= |q.buf|
  {
    var q' := q.(pipe := q.pipe + q.buf[..count], buf := q.buf[count..]);
    if count == |q.buf| then q'.(drainers := if q.drainers == 0 then 0 else q.drainers - 1) else q'
  }

  function Failed(q: Queue): Queue {
    q.(lost := q.lost + |q.buf|, buf := [], drainers := if q.drainers == 0 then 0 else q.drainers - 1)
  }

  function Received(q: Queue, count: nat): Queue
    requires count <= |q.pipe|
  {
    q.(dispatched := q.dispatched + q.pipe[..count], pipe := q.pipe[count..])
  }

  /** A drain thread acts only while it lives; a write or a read moves at most PIPE_BUF bytes. */
  predicate Enabled(q: Queue, e: Event) {
    match e
    case Send(_, _, _) => true
    case DrainWrote(n) => q.drainers > 0 && n <= |q.buf| && n <= PIPE_BUF_PTRS && (n == 0 ==> q.buf == [])
    case DrainAgain => q.drainers > 0
    case DrainFailed => q.drainers > 0
    case Read(n) => n <= |q.pipe| && n <= PIPE_BUF_PTRS
  }

  function Step(q: Queue, e: Event): Queue
    requires Enabled(q, e)
  {
    match e
    case Send(p, written, started) => Sent(q, p, written, started)
    case DrainWrote(n) => Drained(q, n)
    case DrainAgain => q
    case DrainFailed => Failed(q)
    case Read(n) => Received(q, n)
  }

  predicate Run(qs: seq<Queue>, es: seq<Event>) {
    |qs| == |es| + 1 && forall i :: 0 <= i < |es| ==> Enabled(qs[i], es[i]) && qs[i + 1] == Step(qs[i], es[i])
  }

  /** `index` tells where each pointer that is still under way, or arrived, stands among those sent. */
  ghost predicate InOrder(arrived: seq<Ptr>, sent: seq<Ptr>, index: seq<int>) {
    && |index| == |arrived|
    && (forall i :: 0 <= i < |index| ==> 0 <= index[i] < |sent| && arrived[i] == sent[index[i]])
    && (forall i, j :: 0 <= i < j < |index| ==> index[i] < index[j])
  }

  ghost predicate Inv(q: Queue) {
    && q.drainers <= 1 && (q.buf != [] <==> q.drainers == 1)
    && |q.buf| <= q.capacity && q.capacity >= MAX_MSGS
    && |q.Arrived()| + q.lost == |q.sent|
    && exists index :: InOrder(q.Arrived(), q.sent, index)
  }

  /** One more pointer sent, whether it arrives or not. */
  lemma OneMoreSent(arrived: seq<Ptr>, sent: seq<Ptr>, index: seq<int>, p: Ptr)
    requires InOrder(arrived, sent, index)
    ensures InOrder(arrived, sent + [p], index) && InOrder(arrived + [p], sent + [p], index + [|sent|])
  {
  }

  lemma FewerArrive(arrived: seq<Ptr>, sent: seq<Ptr>, index: seq<int>, n: nat)
    requires InOrder(arrived, sent, index) && n <= |arrived|
    ensures n <= |index| && InOrder(arrived[..n], sent, index[..n])
  {
  }

  lemma StepKeepsInv(q: Queue, e: Event)
    requires Inv(q) && Enabled(q, e)
    ensures Inv(Step(q, e))
  {
    hide InOrder;
    var q', a := Step(q, e), q.Arrived();
    var index :| InOrder(a, q.sent, index);
    match e {
      case Send(p, written, started) =>
        OneMoreSent(a, q.sent, index, p);
        if q.buf == [] && !written && !started {
          assert InOrder(q'.Arrived(), q'.sent, index);
        } else {
          assert q'.Arrived() == a + [p];
        }
      case DrainFailed =>
        var n := |q.dispatched| + |q.pipe|;
        assert q'.Arrived() == a[..n];
        FewerArrive(a, q.sent, index, n);
      case _ =>
        assert q'.Arrived() == a;
    }
  }

  /** Pointers in increasing positions of a sequence no longer than themselves are that sequence. */
  lemma {:induction false} NothingMissing(arrived: seq<Ptr>, sent: seq<Ptr>, index: seq<int>)
    requires InOrder(arrived, sent, index) && |arrived| == |sent|
    ensures arrived == sent
  {
    var i := 0;
    while i < |index|
      invariant 0 <= i <= |index|
      invariant forall k :: 0 <= k < i ==> index[k] >= k
    {
      assert i > 0 ==> index[i - 1] < index[i];
      i := i + 1;
    }
    i := |index|;
    while i > 0
      invariant 0 <= i <= |index|
      invariant forall k :: i <= k < |index| ==> index[k] == k
    {
      assert i < |index| ==> index[i - 1] < index[i];
      i := i - 1;
    }
  }

  lemma {:induction false} RunKeepsInv(qs: seq<Queue>, es: seq<Event>)
    requires Run(qs, es) && Inv(qs[0])
    ensures Inv(qs[|es|])
  {
    if es != [] {
      var k := |es| - 1;
      RunKeepsInv(qs[..k + 1], es[..k]);
      StepKeepsInv(qs[k], es[k]);
    }
  }

  /** A pointer is dropped when no drain thread can be started, the buffer when the thread gives up. */
  predicate Loses(q: Queue, e: Event) {
    e.DrainFailed? || (e.Send? && q.buf == [] && !e.written && !e.started)
  }

  lemma {:induction false} LossesAreErrors(qs: seq<Queue>, es: seq<Event>)
    requires Run(qs, es) && Inv(qs[0])
    ensures qs[|es|].lost >= qs[0].lost
    ensures qs[|es|].lost == qs[0].lost <==> forall i :: 0 <= i < |es| ==> !Loses(qs[i], es[i])
  {
    if es != [] {
      var k := |es| - 1;
      LossesAreErrors(qs[..k + 1], es[..k]);
      RunKeepsInv(qs[..k + 1], es[..k]);
      assert qs[k + 1] == Step(qs[k], es[k]);
      assert Loses(qs[k], es[k]) <==> qs[k + 1].lost > qs[k].lost;
    }
  }

  /**
   In every interleaving of producers, drain threads and the reader: a drain thread lives exactly
   while the buffer holds something, and never two; the pointers dispatched, in the pipe and in the
   buffer are in the order of sending, and they are all the pointers sent unless an error lost some.
   */
  lemma EveryRun(qs: seq<Queue>, es: seq<Event>)
    requires Run(qs, es) && qs[0] == EMPTY
    ensures Inv(qs[|es|])
    ensures qs[|es|].Arrived() == qs[|es|].sent <==> forall i :: 0 <= i < |es| ==> !Loses(qs[i], es[i])
  {
    hide Loses, Step;
    assert InOrder([], [], []);
    RunKeepsInv(qs, es);
    LossesAreErrors(qs, es);
    var q := qs[|es|];
    var index :| InOrder(q.Arrived(), q.sent, index);
    if q.lost == 0 {
      NothingMissing(q.Arrived(), q.sent, index);
    }
  }

  /** A write or a read that moves something. */
  predicate Moves(e: Event) {
    (e.DrainWrote? || e.Read?) && e.count > 0
  }

  /** While anything is queued, something can be moved. */
  lemma SomethingMoves(q: Queue) returns (e: Event)
    requires Inv(q) && (q.pipe != [] || q.buf != [])
    ensures Enabled(q, e) && Moves(e)
  {
    hide InOrder;
    e := if q.pipe != [] then Read(1) else DrainWrote(1);
  }

  /**
   Once no one sends any more, every schedule of draining and reading keeps what is queued in order
   and comes nearer to its end with each move; when nothing is left, all of it has been dispatched
   and the drain thread has ended.
   */
  lemma {:induction false} EveryScheduleSettles(qs: seq<Queue>, es: seq<Event>)
    requires Run(qs, es) && Inv(qs[0]) && forall e :: e in es ==> Moves(e)
    ensures var q, q' := qs[0], qs[|es|];
            && Inv(q') && q'.Arrived() == q.Arrived() && |es| + 2 * |q'.buf| + |q'.pipe| <= 2 * |q.buf| + |q.pipe|
            && (q'.buf == [] && q'.pipe == [] ==> q'.dispatched == q.Arrived() && q'.drainers == 0)
  {
    hide InOrder;
    if es != [] {
      var k := |es| - 1;
      EveryScheduleSettles(qs[..k + 1], es[..k]);
      assert es[k] in es && qs[k + 1] == Step(qs[k], es[k]);
      StepKeepsInv(qs[k], es[k]);
      MoveKeepsArrived(qs[k], es[k]);
    }
    assert qs[|es|].buf == [] && qs[|es|].pipe == [] ==> qs[|es|].Arrived() == qs[|es|].dispatched;
  }

  lemma MoveKeepsArrived(q: Queue, e: Event)
    requires Enabled(q, e) && Moves(e)
    ensures Step(q, e).Arrived() == q.Arrived()
  {
  }

  /** The event socket itself, with its buffer in place. */
  class EventSocket {
    var data: array<Ptr>   // buf_out
    var size: nat          // buf_out_size
    var pipe: seq<Ptr>
    var drainers: nat
    var dispatched: seq<Ptr>
    ghost var sent: seq<Ptr>
    ghost var lost: nat

    ghost predicate Valid()
      reads this, data
    {
      size <= data.Length && Inv(View())
    }

    ghost function View(): Queue
      reads this, data
      requires size <= data.Length
    {
      Queue(sent, dispatched, pipe, data[..size], data.Length, drainers, lost)
    }

    constructor ()
      ensures Valid() && View() == EMPTY && fresh(data)
    {
      data, size, pipe, drainers, dispatched := new Ptr[MAX_MSGS], 0, [], 0, [];
      sent, lost := [], 0;
      new;
      assert InOrder([], [], []);
      assert View() == EMPTY;
    }

    /** `s_add_ptr_to_buf`. */
    method AddPtr(ptr: Ptr, written: bool, started: bool)
      requires Valid()
      modifies this, data
      ensures Valid() && (data == old(data) || fresh(data))
      ensures View() == Step(old(View()), Send(ptr, written, started))
    {
      ghost var next := Step(View(), Send(ptr, written, started));
      StepKeepsInv(View(), Send(ptr, written, started));
      hide Inv;
      sent := sent + [ptr];
      if size == 0 {
        if written {
          pipe := pipe + [ptr];
          assert View() == next;
          return;
        }
        if !started {
          lost := lost + 1;
          assert View() == next;
          return;
        }
        drainers := drainers + 1;
      } else if data.Length < size + 1 {
        data := Arrays.Reallocated(data, size, data.Length + MAX_MSGS);
      } else if size + 1 <= MAX_MSGS / 2 && data.Length > MAX_MSGS {
        data := Arrays.Reallocated(data, size, MAX_MSGS);
      }
      data[size] := ptr;
      size := size + 1;
      assert data[..size] == old(data[..size]) + [ptr];
      assert View() == next;
    }

    /** One successful turn of `s_dap_events_socket_buf_thread`: `count` pointers went into the pipe. */
    method DrainTurn(count: nat)
      requires Valid() && Enabled(View(), DrainWrote(count))
      modifies this, data
      ensures Valid() && data == old(data)
      ensures View() == Step(old(View()), DrainWrote(count))
    {
      hide Inv;
      ghost var next := Step(View(), DrainWrote(count));
      StepKeepsInv(View(), DrainWrote(count));
      ghost var shifted := data[..size][count..];
      pipe := pipe + data[..count];
      if count == size {
        size := 0;
        drainers := drainers - 1;
      } else {
        size := size - count;
        var i := 0;
        while i < size
          invariant 0 <= i <= size == old(size) - count && data == old(data)
          invariant pipe == old(pipe + data[..count]) && drainers == old(drainers)
          invariant sent == old(sent) && lost == old(lost) && dispatched == old(dispatched)
          invariant forall k :: 0 <= k < i ==> data[k] == shifted[k]
          invariant forall k :: i <= k < size ==> data[k + count] == shifted[k]
        {
          data[i] := data[i + count];
          i := i + 1;
        }
      }
      assert data[..size] == shifted;
      assert View() == next;
    }

    /** The turn that meets a timeout or a write error: the buffer is dropped. */
    method DrainFail()
      requires Valid() && drainers > 0
      modifies this
      ensures Valid() && data == old(data)
      ensures View() == Step(old(View()), DrainFailed)
    {
      hide Inv;
      ghost var next := Step(View(), DrainFailed);
      StepKeepsInv(View(), DrainFailed);
      assert |View().buf| == size;
      lost := lost + size;
      size := 0;
      drainers := drainers - 1;
      assert View() == next;
    }

    /** `dap_events_socket_queue_proc_input_unsafe`: each pointer read is given to the callback. */
    method ProcInput(count: nat)
      requires Valid() && Enabled(View(), Read(count))
      modifies this
      ensures Valid() && data == old(data)
      ensures View() == Step(old(View()), Read(count))
    {
      hide Inv;
      ghost var next := Step(View(), Read(count));
      StepKeepsInv(View(), Read(count));
      var body := pipe[..count];
      pipe := pipe[count..];
      var i := 0;
      while i < |body|
        invariant 0 <= i <= |body| == count && body == old(pipe)[..count] && pipe == old(pipe)[count..]
        invariant dispatched == old(dispatched) + body[..i] && data == old(data)
        invariant size == old(size) && drainers == old(drainers) && sent == old(sent) && lost == old(lost)
      {
        dispatched := dispatched + [body[i]];
        i := i + 1;
      }
      assert body[..i] == body;
      assert View() == next;
    }
  }
}
