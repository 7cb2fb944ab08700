/** The elastic output buffer of a socket: writes at the end, front inserts, partial sends. */
module OutBuffer {
  import Arrays
  import opened Bytes

  const BASIC_SIZE: nat := 1024 * 1024   // DAP_EVENTS_SOCKET_BUF_LIMIT / 4

  datatype State = State(sent: bytes, buf: bytes, capacity: nat, closing: bool)

  /** A send reports how many bytes of the buffer it took; an error drops the buffer and may close the socket. */
  datatype Event = Write(data: bytes) | Insert(data: bytes) | Send(count: nat) | SendError(close: bool)

  predicate Enabled(s: State, e: Event) {
    e.Send? ==> e.count <= |s.buf|
  }

  function Capacity(s: State, n: nat): (c: nat)
    ensures |s.buf| <= s.capacity ==> |s.buf| + n <= c
  {
    if s.capacity < |s.buf| + n then s.capacity + (if BASIC_SIZE > n then BASIC_SIZE else n)
    else if |s.buf| + n <= BASIC_SIZE / 4 && s.capacity > BASIC_SIZE then BASIC_SIZE
    else s.capacity
  }

  /**
   The buffer grows exactly when the data does not fit, by a block or by as much as is written, falls back
   to one block when a quarter of that will do, and is left alone otherwise.
   */
  lemma CapacityMeans(s: State, n: nat)
    requires |s.buf| <= s.capacity
    ensures var c, block := Capacity(s, n), 1024 * 1024;
            && (c > s.capacity <==> |s.buf| + n > s.capacity)
            && (c > s.capacity ==> c - s.capacity >= block && c - s.capacity >= n
                                   && (c - s.capacity == block || c - s.capacity == n))
            && (c < s.capacity <==> |s.buf| + n <= block / 4 && s.capacity > block) && (c < s.capacity ==> c == block)
  {
  }

  predicate HasRoom(s: State, n: nat) {
    s.capacity - |s.buf| >= n
  }

  function Step(s: State, e: Event): State
    requires Enabled(s, e)
  {
    match e
    case Write(data) => if s.closing then s else s.(buf := s.buf + data, capacity := Capacity(s, |data|))
    case Insert(data) => if HasRoom(s, |data|) then s.(buf := data + s.buf) else s
    case Send(n) => s.(sent := s.sent + s.buf[..n], buf := s.buf[n..])
    case SendError(close) => s.(buf := [], closing := s.closing || close)
  }

  predicate Run(ss: seq<State>, es: seq<Event>) {
    |ss| == |es| + 1 && forall i :: 0 <= i < |es| ==> Enabled(ss[i], es[i]) && ss[i + 1] == Step(ss[i], es[i])
  }

  /** The byte stream a peer is to see: writes go to its end, an insert goes before all that is not yet sent. */
  function Extended(stream: bytes, s: State, e: Event): bytes {
    match e
    case Write(data) => if s.closing then stream else stream + data
    case Insert(data) =>
      if HasRoom(s, |data|) && |s.sent| <= |stream| then stream[..|s.sent|] + data + stream[|s.sent|..] else stream
    case Send(_) => stream
    case SendError(_) => s.sent
  }

  function Stream(ss: seq<State>, es: seq<Event>): bytes
    requires |ss| == |es| + 1
  {
    if es == [] then ss[0].sent + ss[0].buf
    else
      var k := |es| - 1;
      Extended(Stream(ss[..k + 1], es[..k]), ss[k], es[k])
  }

  lemma StepConserves(s: State, e: Event)
    requires Enabled(s, e) && |s.buf| <= s.capacity
    ensures var s' := Step(s, e); s'.sent + s'.buf == Extended(s.sent + s.buf, s, e) && |s'.buf| <= s'.capacity
  {
    var stream := s.sent + s.buf;
    match e
    case Write(data) => assert s.sent + (s.buf + data) == stream + data;
    case Insert(data) => assert stream[..|s.sent|] == s.sent && stream[|s.sent|..] == s.buf;
    case Send(n) => assert s.sent + s.buf[..n] + s.buf[n..] == stream;
    case SendError(_) =>
  }

  /**
   Conservation: in every run, what was sent followed by what is buffered is exactly the stream
   that was accepted, up to the last error, and the buffer never outgrows its capacity.
   */
  lemma {:induction false} Conservation(ss: seq<State>, es: seq<Event>)
    requires Run(ss, es) && |ss[0].buf| <= ss[0].capacity
    ensures var s := ss[|es|]; s.sent + s.buf == Stream(ss, es) && |s.buf| <= s.capacity
  {
    hide Step, Extended, Enabled;
    if es != [] {
      var k := |es| - 1;
      Conservation(ss[..k + 1], es[..k]);
      StepConserves(ss[k], es[k]);
    }
  }

  function Written(es: seq<Event>): bytes {
    if es == [] then []
    else Written(es[..|es| - 1]) + (if es[|es| - 1].Write? then es[|es| - 1].data else [])
  }

  lemma OpenStep(s: State, e: Event, stream: bytes)
    requires Enabled(s, e) && !s.closing && (e.Write? || e.Send?)
    ensures !Step(s, e).closing && Extended(stream, s, e) == stream + (if e.Write? then e.data else [])
  {
  }

  /** With nothing but writes and sends, the stream is the writes, one after the other. */
  lemma {:induction false} WritesInOrder(ss: seq<State>, es: seq<Event>)
    requires Run(ss, es) && !ss[0].closing && forall e :: e in es ==> e.Write? || e.Send?
    ensures !ss[|es|].closing && Stream(ss, es) == ss[0].sent + ss[0].buf + Written(es)
  {
    hide Step, Extended;
    if es != [] {
      var k := |es| - 1;
      assert es[k] in es;
      WritesInOrder(ss[..k + 1], es[..k]);
      OpenStep(ss[k], es[k], Stream(ss[..k + 1], es[..k]));
      assert ss[k + 1] == Step(ss[k], es[k]);
    }
  }

  /**
   A socket is closing exactly when it was at the start or some error since then was to close it; from
   then on every write is refused.
   */
  lemma {:induction false} ClosingIff(ss: seq<State>, es: seq<Event>, data: bytes)
    requires Run(ss, es)
    ensures ss[|es|].closing <==> ss[0].closing || SendError(true) in es
    ensures ss[0].closing || SendError(true) in es ==> Step(ss[|es|], Write(data)) == ss[|es|]
  {
    if es != [] {
      var k := |es| - 1;
      ClosingIff(ss[..k + 1], es[..k], data);
      assert SendError(true) in es <==> SendError(true) in es[..k] || es[k] == SendError(true);
      assert ss[k + 1] == Step(ss[k], es[k]);
    }
  }

  lemma FrontInsert(was: bytes, n: nat, src: bytes)
    requires n + |src| <= |was|
    ensures var moved := was[..|src|] + was[..n] + was[|src| + n..];
            |moved| == |was| && (moved[..0] + src + moved[|src|..])[..n + |src|] == src + was[..n]
  {
    var moved := was[..|src|] + was[..n] + was[|src| + n..];
    assert moved[|src|..] == was[..n] + was[|src| + n..];
  }

  class EventSocket {
    var data: array<byte>   // buf_out
    var size: nat           // buf_out_size
    var closing: bool       // DAP_SOCK_SIGNAL_CLOSE
    ghost var sent: bytes

    ghost predicate Valid()
      reads this
    {
      size <= data.Length
    }

    ghost function View(): State
      reads this, data
      requires Valid()
    {
      State(sent, data[..size], data.Length, closing)
    }

    /** Copies `src` into the buffer at `at`. */
    method CopyIn(at: nat, src: bytes)
      requires at + |src| <= data.Length
      modifies data
      ensures data[..] == old(data[..])[..at] + src + old(data[..])[at + |src|..]
    {
      ghost var was := data[..];
      var i := 0;
      while i < |src|
        invariant 0 <= i <= |src| && data[..] == was[..at] + src[..i] + was[at + i..]
      {
        data[at + i] := src[i];
        i := i + 1;
      }
    }

    /** `dap_events_socket_write_unsafe`: the number of bytes placed into the buffer. */
    method WriteUnsafe(src: bytes) returns (n: nat)
      requires Valid()
      modifies this, data
      ensures Valid() && (data == old(data) || fresh(data)) && View() == Step(old(View()), Write(src))
      ensures n == if closing then 0 else |src|
    {
      if closing {
        return 0;
      }
      ghost var s := View();
      if data.Length < size + |src| {
        data := Arrays.Reallocated(data, size, data.Length + if BASIC_SIZE > |src| then BASIC_SIZE else |src|);
      } else if size + |src| <= BASIC_SIZE / 4 && data.Length > BASIC_SIZE {
        data := Arrays.Reallocated(data, size, BASIC_SIZE);
      }
      CopyIn(size, src);
      size := size + |src|;
      assert data[..size] == data[..][..size] == s.buf + src;
      return |src|;
    }

    method ShiftIn(src: bytes)
      requires Valid() && size + |src| <= data.Length
      modifies this`size, data
      ensures size == old(size) + |src| <= data.Length && data[..size] == src + old(data[..size])
    {
      FrontInsert(data[..], size, src);
      assert data[..][..size] == data[..size];
      CopyIn(|src|, data[..size]);
      CopyIn(0, src);
      size := size + |src|;
      assert data[..size] == data[..][..size];
    }

    /** `dap_events_socket_insert_buf_out`; None is -ENOMEM. */
    method InsertBufOut(src: bytes) returns (n: Option<nat>)
      requires Valid()
      modifies this`size, data
      ensures Valid() && View() == Step(old(View()), Insert(src))
      ensures n == if src == [] then Some(0) else if old(size) + |src| <= data.Length then Some(|src|) else None
      ensures old(size) + |src| <= data.Length ==> data[..size] == src + old(data[..size])
    {
      ghost var s := View();
      if src == [] {
        assert [] + s.buf == s.buf;
        return Some(0);
      }
      if data.Length - size < |src| {
        return None;
      }
      ShiftIn(src);
      assert View() == s.(buf := src + s.buf);
      return Some(|src|);
    }

    /** The worker's turn after a send of `count` bytes: the rest moves to the front. */
    method AfterSend(count: nat)
      requires Valid() && count <= size
      modifies this`size, this`sent, data
      ensures Valid() && View() == Step(old(View()), Send(count))
    {
      ghost var s := View();
      sent := sent + data[..count];
      size := size - count;
      if size != 0 {
        CopyIn(0, data[count..count + size]);
      }
      assert data[..size] == data[..][..size] == s.buf[count..];
    }

    /** The worker's turn after a send error. */
    method AfterError(noClose: bool)
      requires Valid()
      modifies this`size, this`closing
      ensures Valid() && View() == Step(old(View()), SendError(!noClose))
    {
      if !noClose {
        closing := true;
      }
      size := 0;
    }
  }
}
