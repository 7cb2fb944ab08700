/** The poll array of a context: back-indices of sockets, the uuid table, and in-place compression. */
module PollTable {
  import opened Bytes

  datatype PollFd = PollFd(fd: int, events: nat, revents: nat)
  datatype Socket = Socket(uuid: nat, fd: int, events: nat)

  /**
   `poll` and `es` are the used parts of the two poll arrays, `index` the `poll_index` field of
   each socket, `attached` the sockets whose context is set, `table` the sockets by uuid, `total`
   the counter of sockets.
   */
  datatype State = State(poll: seq<PollFd>, es: seq<Option<Socket>>, index: map<Socket, nat>, attached: set<Socket>,
                         table: map<nat, Socket>, total: int, compress: bool)

  /** All that the operations themselves ask for. */
  predicate Shaped(c: State) {
    |c.poll| == |c.es| && forall s :: s in c.attached ==> s in c.index
  }

  datatype Event = Add(s: Socket) | Remove(s: Socket) | Compress

  /** A slot is free in both arrays, or names a registered socket that points back at it. */
  ghost predicate SlotOk(c: State, i: nat)
    requires i < |c.es| == |c.poll|
  {
    match c.es[i]
    case None => c.compress && c.poll[i].fd == -1
    case Some(s) =>
      && s in c.index && c.index[s] == i && Registered(c, s)
      && c.poll[i].fd == s.fd != -1 && c.poll[i].events == s.events
  }

  ghost predicate Registered(c: State, s: Socket) {
    s.uuid in c.table && c.table[s.uuid] == s
  }

  /** A table entry has its uuid and a slot that names it. */
  ghost predicate EntryOk(c: State, u: nat)
    requires u in c.table
  {
    var s := c.table[u];
    s.uuid == u && s in c.index && s in c.attached && c.index[s] < |c.es| && c.es[c.index[s]] == Some(s)
  }

  ghost predicate Inv(c: State) {
    && |c.poll| == |c.es| && c.total == |c.table|
    && (forall s :: s in c.attached ==> Registered(c, s))
    && (forall i :: 0 <= i < |c.es| ==> SlotOk(c, i))
    && (forall u :: u in c.table ==> EntryOk(c, u))
  }

  /** A socket gets a slot in any case, and a table entry if its uuid is new. */
  function Added(c: State, s: Socket): State {
    c.(poll := c.poll + [PollFd(s.fd, s.events, 0)], es := c.es + [Some(s)], index := c.index[s := |c.es|],
       attached := c.attached + {s},
       table := if s.uuid in c.table then c.table else c.table[s.uuid := s],
       total := if s.uuid in c.table then c.total else c.total + 1)
  }

  /** The slot that a socket points at is freed, whether or not the table knows the socket. */
  function Removed(c: State, s: Socket): State
    requires Shaped(c)
  {
    if s !in c.attached then c
    else
      var known := s.uuid in c.table && c.table[s.uuid] == s;
      var c' := c.(attached := c.attached - {s}, table := if known then c.table - {s.uuid} else c.table,
                   total := if known then c.total - 1 else c.total);
      var i := c.index[s];
      if i < |c.es| then c'.(poll := c.poll[i := c.poll[i].(fd := -1)], es := c.es[i := None], compress := true) else c'
  }

  function RemoveCode(c: State, s: Socket): int
    requires Shaped(c)
  {
    if s !in c.attached then -1 else if c.index[s] < |c.es| then 0 else -2
  }

  /** The live sockets, in slot order. */
  function Live(es: seq<Option<Socket>>): seq<Socket> {
    if es == [] then []
    else
      var k := |es| - 1;
      if es[k].Some? then Live(es[..k]) + [es[k].value] else Live(es[..k])
  }

  function LivePoll(poll: seq<PollFd>): seq<PollFd> {
    if poll == [] then []
    else
      var k := |poll| - 1;
      if poll[k].fd != -1 then LivePoll(poll[..k]) + [poll[k]] else LivePoll(poll[..k])
  }

  /** Compression keeps the live slots, in order, and makes every socket point at its new slot. */
  ghost predicate Compressed(c: State, c': State) {
    if !c.compress then c' == c
    else
      && c'.table == c.table && c'.total == c.total && c'.attached == c.attached && !c'.compress
      && c'.poll == LivePoll(c.poll) && Live(c'.es) == Live(c.es) && |c'.es| == |Live(c.es)|
      && (forall i :: 0 <= i < |c'.es| ==>
           c'.es[i].Some? && c'.es[i].value in c'.index && c'.index[c'.es[i].value] == i)
  }

  ghost predicate Step(c: State, e: Event, c': State) {
    match e
    case Add(s) => s.fd != -1 && s.uuid !in c.table && c' == Added(c, s)
    case Remove(s) => Shaped(c) && c' == Removed(c, s)
    case Compress => Compressed(c, c')
  }

  // What the steps keep.

  lemma AddSlot(c: State, s: Socket, i: nat)
    requires Inv(c) && s.fd != -1 && s.uuid !in c.table && i <= |c.es|
    ensures SlotOk(Added(c, s), i)
  {
    assert i < |c.es| ==> SlotOk(c, i);
  }

  lemma AddEntry(c: State, s: Socket, u: nat)
    requires Inv(c) && s.uuid !in c.table && u in Added(c, s).table
    ensures EntryOk(Added(c, s), u)
  {
    assert u != s.uuid ==> EntryOk(c, u);
  }

  lemma TableGrows(table: map<nat, Socket>, s: Socket)
    requires s.uuid !in table
    ensures |table[s.uuid := s]| == |table| + 1
  {
    assert table[s.uuid := s].Keys == table.Keys + {s.uuid};
  }

  lemma LiveAppend(es: seq<Option<Socket>>, s: Socket)
    ensures Live(es + [Some(s)]) == Live(es) + [s]
  {
    assert (es + [Some(s)])[..|es|] == es;
  }

  lemma AddKeepsInv(c: State, s: Socket)
    requires Inv(c) && s.fd != -1 && s.uuid !in c.table
    ensures Inv(Added(c, s)) && Live(Added(c, s).es) == Live(c.es) + [s]
    ensures Added(c, s).poll[|c.poll|] == PollFd(s.fd, s.events, 0)
  {
    hide EntryOk, SlotOk, Live;
    var c' := Added(c, s);
    LiveAppend(c.es, s);
    TableGrows(c.table, s);
    forall x | x in c'.attached ensures Registered(c', x) {
      assert x != s ==> Registered(c, x);
    }
    forall i | 0 <= i < |c'.es| ensures SlotOk(c', i) {
      AddSlot(c, s, i);
    }
    forall u | u in c'.table ensures EntryOk(c', u) {
      AddEntry(c, s, u);
    }
  }

  /** An addition keeps everything in step exactly when the uuid is new and the descriptor valid. */
  lemma AddKeepsInvIff(c: State, s: Socket)
    requires Inv(c)
    ensures Inv(Added(c, s)) <==> s.fd != -1 && s.uuid !in c.table
  {
    if s.fd != -1 && s.uuid !in c.table {
      AddKeepsInv(c, s);
    } else {
      AddBreaksSlot(c, s);
    }
  }

  lemma AddBreaksSlot(c: State, s: Socket)
    requires Inv(c) && (s.fd == -1 || s.uuid in c.table)
    ensures exists i :: 0 <= i < |Added(c, s).es| && !SlotOk(Added(c, s), i)
  {
    var c', n := Added(c, s), |c.es|;
    if s.fd != -1 && c.table[s.uuid] == s {
      assert EntryOk(c, s.uuid);
      assert c'.es[c.index[s]] == Some(s) && !SlotOk(c', c.index[s]);
    } else {
      assert c'.es[n] == Some(s) && !SlotOk(c', n);
    }
  }

  /**
   The counter is the size of the table whatever is added and removed, sockets with a uuid in use and
   sockets that the table does not know included.
   */
  lemma CounterIsSize(c: State, s: Socket)
    requires Shaped(c) && c.total == |c.table|
    ensures Added(c, s).total == |Added(c, s).table| && Removed(c, s).total == |Removed(c, s).table|
  {
    if s.uuid !in c.table {
      TableGrows(c.table, s);
    } else {
      assert (c.table - {s.uuid}).Keys == c.table.Keys - {s.uuid};
    }
  }

  /** A socket with a uuid in use gets a slot, but the table and the counter stay with the socket they know. */
  lemma AddKnown(c: State, s: Socket)
    requires s.uuid in c.table
    ensures var c' := Added(c, s);
            c'.table == c.table && c'.total == c.total && c'.es == c.es + [Some(s)] && s in c'.attached
  {
  }

  /** A socket whose slot does not exist is let go without touching a slot, and that is reported. */
  lemma RemoveBeyond(c: State, s: Socket)
    requires Shaped(c) && s in c.attached && c.index[s] >= |c.es|
    ensures var c' := Removed(c, s);
            && RemoveCode(c, s) == -2 && s !in c'.attached && c'.poll == c.poll && c'.es == c.es
            && c'.compress == c.compress
  {
  }

  lemma RemoveSlot(c: State, s: Socket, i: nat)
    requires Inv(c) && Registered(c, s) && i < |c.es|
    ensures Shaped(c) && s in c.index && c.index[s] < |c.es| && SlotOk(Removed(c, s), i)
    ensures i != c.index[s] ==> c.es[i] != Some(s)
  {
    InvIsShaped(c);
    assert EntryOk(c, s.uuid) && SlotOk(c, i);
  }

  lemma RemoveEntry(c: State, s: Socket, u: nat)
    requires Inv(c) && Registered(c, s) && u in c.table && u != s.uuid
    ensures Shaped(c) && s in c.index && c.index[s] < |c.es| && EntryOk(Removed(c, s), u)
  {
    InvIsShaped(c);
    assert EntryOk(c, s.uuid) && EntryOk(c, u);
  }

  lemma InvIsShaped(c: State)
    requires Inv(c)
    ensures Shaped(c) && forall s :: Registered(c, s) <==> s in c.attached
  {
    hide SlotOk;
    forall s | Registered(c, s) ensures s in c.attached && s in c.index {
      assert EntryOk(c, s.uuid);
    }
  }

  lemma RemoveRegistered(c: State, s: Socket)
    requires Inv(c) && Registered(c, s) && Shaped(c) && s in c.attached
    ensures s in c.index && c.index[s] < |c.es| && Inv(Removed(c, s))
    ensures Live(Removed(c, s).es) == Without(Live(c.es), s)
  {
    hide Live, SlotOk, EntryOk;
    SlotOf(c, s);
    var c', k := Removed(c, s), c.index[s];
    assert c'.table.Keys == c.table.Keys - {s.uuid};
    forall i | 0 <= i < |c'.es| ensures SlotOk(c', i) && (i != k ==> c.es[i] != Some(s)) {
      RemoveSlot(c, s, i);
    }
    forall u | u in c'.table ensures EntryOk(c', u) {
      RemoveEntry(c, s, u);
    }
    forall x | x in c'.attached ensures Registered(c', x) {
      assert Registered(c, x);
    }
    LiveAfterRemove(c.es, k, s);
  }

  lemma SlotOf(c: State, s: Socket)
    requires Inv(c) && Registered(c, s)
    ensures s in c.index && c.index[s] < |c.es| && c.es[c.index[s]] == Some(s)
  {
    assert EntryOk(c, s.uuid);
  }

  /** A removal keeps everything in step and takes out exactly that socket; one without a context is refused. */
  lemma RemoveKeepsInv(c: State, s: Socket)
    requires Inv(c)
    ensures Shaped(c) && Inv(Removed(c, s)) && RemoveCode(c, s) == if Registered(c, s) then 0 else -1
    ensures Live(Removed(c, s).es) == Without(Live(c.es), s)
  {
    hide Live, Inv;
    InvIsShaped(c);
    if Registered(c, s) {
      RemoveRegistered(c, s);
    } else {
      NoSlot(c, s);
      NotThere(c.es, s);
    }
  }

  lemma NoSlot(c: State, s: Socket)
    requires Inv(c) && !Registered(c, s)
    ensures forall i :: 0 <= i < |c.es| ==> c.es[i] != Some(s)
  {
    forall i | 0 <= i < |c.es| ensures c.es[i] != Some(s) {
      assert SlotOk(c, i);
    }
  }

  /** The live sockets without one of them. */
  function Without(l: seq<Socket>, s: Socket): seq<Socket> {
    if l == [] then []
    else
      var k := |l| - 1;
      if l[k] != s then Without(l[..k], s) + [l[k]] else Without(l[..k], s)
  }

  lemma {:induction false} LiveAfterRemove(es: seq<Option<Socket>>, k: nat, s: Socket)
    requires k < |es| && es[k] == Some(s) && forall i :: 0 <= i < |es| && i != k ==> es[i] != Some(s)
    ensures Live(es[k := None]) == Without(Live(es), s)
  {
    var n := |es| - 1;
    if k < n {
      LiveAfterRemove(es[..n], k, s);
      assert es[k := None][..n] == es[..n][k := None];
    } else {
      NotThere(es[..n], s);
      assert es[k := None][..n] == es[..n];
    }
  }

  lemma {:induction false} NotThere(es: seq<Option<Socket>>, s: Socket)
    requires forall i :: 0 <= i < |es| ==> es[i] != Some(s)
    ensures Without(Live(es), s) == Live(es)
  {
    if es != [] {
      NotThere(es[..|es| - 1], s);
    }
  }

  lemma {:induction false} LiveMeans(es: seq<Option<Socket>>, s: Socket)
    ensures s in Live(es) <==> Some(s) in es
  {
    if es != [] {
      LiveMeans(es[..|es| - 1], s);
      assert Some(s) in es <==> Some(s) in es[..|es| - 1] || es[|es| - 1] == Some(s);
    }
  }

  lemma {:induction false} LiveOfAllLive(es: seq<Option<Socket>>)
    requires forall i :: 0 <= i < |es| ==> es[i].Some?
    ensures |Live(es)| == |es| && forall i :: 0 <= i < |es| ==> Live(es)[i] == es[i].value
  {
    if es != [] {
      LiveOfAllLive(es[..|es| - 1]);
    }
  }

  /** A slot of the poll array waits for the events of the socket in it, or is marked free. */
  predicate Watches(p: PollFd, s: Option<Socket>) {
    if s.Some? then p.fd == s.value.fd != -1 && p.events == s.value.events else p.fd == -1
  }

  /** The two filters keep the same slots. */
  lemma {:induction false} LiveTogether(poll: seq<PollFd>, es: seq<Option<Socket>>)
    requires |poll| == |es| && forall i :: 0 <= i < |es| ==> Watches(poll[i], es[i])
    ensures |LivePoll(poll)| == |Live(es)|
         && forall i :: 0 <= i < |Live(es)| ==> Watches(LivePoll(poll)[i], Some(Live(es)[i]))
  {
    if es != [] {
      LiveTogether(poll[..|es| - 1], es[..|es| - 1]);
    }
  }

  lemma CompressKeepsInv(c: State, c': State)
    requires Inv(c) && Compressed(c, c')
    ensures Inv(c') && Live(c'.es) == Live(c.es)
  {
    hide Live, LivePoll;
    if c.compress {
      forall i | 0 <= i < |c.es| ensures Watches(c.poll[i], c.es[i]) {
        assert SlotOk(c, i);
      }
      LiveTogether(c.poll, c.es);
      LiveOfAllLive(c'.es);
      forall i | 0 <= i < |c'.es| ensures SlotOk(c', i) {
        var s := c'.es[i].value;
        LiveMeans(c.es, s);
        var j :| 0 <= j < |c.es| && c.es[j] == Some(s);
        assert SlotOk(c, j);
      }
      forall u | u in c'.table ensures EntryOk(c', u) {
        assert EntryOk(c, u);
        var s := c.table[u];
        LiveMeans(c.es, s);
        LiveMeans(c'.es, s);
        var j :| 0 <= j < |c'.es| && c'.es[j] == Some(s);
      }
    }
  }

  ghost predicate Run(cs: seq<State>, es: seq<Event>) {
    |cs| == |es| + 1 && forall k :: 0 <= k < |es| ==> Step(cs[k], es[k], cs[k + 1])
  }

  function Next(l: seq<Socket>, e: Event): seq<Socket> {
    match e
    case Add(s) => l + [s]
    case Remove(s) => Without(l, s)
    case Compress => l
  }

  lemma StepKeepsInv(c: State, e: Event, c': State)
    requires Inv(c) && Step(c, e, c')
    ensures Inv(c') && Live(c'.es) == Next(Live(c.es), e)
  {
    hide Inv, Compressed, Added, Removed, Live;
    match e
    case Add(s) => AddKeepsInv(c, s);
    case Remove(s) => RemoveKeepsInv(c, s);
    case Compress => CompressKeepsInv(c, c');
  }

  /** The sockets a run leaves, by its additions and removals alone. */
  function Expected(first: seq<Socket>, es: seq<Event>): seq<Socket> {
    if es == [] then first else Next(Expected(first, es[..|es| - 1]), es[|es| - 1])
  }

  /**
   Over every run of additions, removals and compressions, every socket's back-index names its own
   slot, the counter is the size of the table, and the live slots are in order of arrival.
   */
  lemma {:induction false} EveryRun(cs: seq<State>, es: seq<Event>)
    requires Run(cs, es) && Inv(cs[0])
    ensures Inv(cs[|es|]) && Live(cs[|es|].es) == Expected(Live(cs[0].es), es)
  {
    hide Inv, Live, Step;
    if es != [] {
      var k := |es| - 1;
      EveryRun(cs[..k + 1], es[..k]);
      StepKeepsInv(cs[k], es[k], cs[k + 1]);
    }
  }

  /** The sockets in `es` now stand at `from` and up. */
  function Reindexed(index: map<Socket, nat>, es: seq<Option<Socket>>, from: nat): map<Socket, nat> {
    if es == [] then index
    else
      var k := |es| - 1;
      Placed(Reindexed(index, es[..k], from), es[k], from + k)
  }

  function Placed(index: map<Socket, nat>, e: Option<Socket>, k: nat): map<Socket, nat> {
    if e.Some? then index[e.value := k] else index
  }

  lemma ReindexedStart(index: map<Socket, nat>, es: seq<Option<Socket>>, from: nat)
    requires from < |es|
    ensures Reindexed(index, es[from + 1..from + 1], from) == index
  {
  }

  ghost predicate PointBack(es: seq<Option<Socket>>, index: map<Socket, nat>) {
    forall k :: 0 <= k < |es| && es[k].Some? ==> es[k].value in index && index[es[k].value] == k
  }

  lemma {:induction false} ReindexedOther(index: map<Socket, nat>, es: seq<Option<Socket>>, from: nat, s: Socket)
    requires s in index && forall l :: 0 <= l < |es| ==> es[l] != Some(s)
    ensures s in Reindexed(index, es, from) && Reindexed(index, es, from)[s] == index[s]
  {
    if es != [] {
      ReindexedOther(index, es[..|es| - 1], from, s);
    }
  }

  lemma {:induction false} ReindexedAt(index: map<Socket, nat>, es: seq<Option<Socket>>, from: nat, k: nat, s: Socket)
    requires k < |es| && es[k] == Some(s) && forall l :: k < l < |es| ==> es[l] != Some(s)
    ensures s in Reindexed(index, es, from) && Reindexed(index, es, from)[s] == from + k
  {
    if k < |es| - 1 {
      ReindexedAt(index, es[..|es| - 1], from, k, s);
    }
  }

  /** The socket now in slot k, after the gap at i is closed. */
  lemma GapSlot(es: seq<Option<Socket>>, index: map<Socket, nat>, i: nat, k: nat, s: Socket)
    requires PointBack(es, index) && i < |es| && k < |es| - 1 && es[if k < i then k else k + 1] == Some(s)
    ensures s in Reindexed(index, es[i + 1..], i) && Reindexed(index, es[i + 1..], i)[s] == k
  {
    hide Reindexed;
    var tail := es[i + 1..];
    assert forall l :: 0 <= l < |tail| ==> tail[l] == es[i + 1 + l];
    if k < i {
      ReindexedOther(index, tail, i, s);
    } else {
      ReindexedAt(index, tail, i, k - i, s);
    }
  }

  /** After a gap is closed, the sockets behind it point at their new slots and the others at their old ones. */
  lemma CloseGap(es: seq<Option<Socket>>, index: map<Socket, nat>, i: nat)
    requires PointBack(es, index) && i < |es|
    ensures PointBack(Cut(es, i), Reindexed(index, es[i + 1..], i))
  {
    var es', index' := es[..i] + es[i + 1..], Reindexed(index, es[i + 1..], i);
    forall k | 0 <= k < |es'| && es'[k].Some? ensures es'[k].value in index' && index'[es'[k].value] == k {
      GapSlot(es, index, i, k, es'[k].value);
    }
  }

  function Somes(l: seq<Socket>): seq<Option<Socket>> {
    seq(|l|, i requires 0 <= i < |l| => Some(l[i]))
  }

  /** The first m slots have been squeezed into i. */
  ghost predicate Squeezed(poll: seq<PollFd>, es: seq<Option<Socket>>, m: nat, poll': seq<PollFd>,
                           es': seq<Option<Socket>>, i: nat)
    requires m <= |poll| == |es|
  {
    && |LivePoll(poll[..m])| == |Live(es[..m])| == i
    && poll' == LivePoll(poll[..m]) + poll[m..] && es' == Somes(Live(es[..m])) + es[m..]
  }

  ghost predicate InStep(poll: seq<PollFd>, es: seq<Option<Socket>>) {
    |poll| == |es| && forall k :: 0 <= k < |es| ==> (poll[k].fd == -1 <==> es[k].None?)
  }

  lemma SqueezeStart(poll: seq<PollFd>, es: seq<Option<Socket>>)
    requires InStep(poll, es)
    ensures |poll| == |es| && Squeezed(poll, es, 0, poll, es, 0)
  {
    assert poll[..0] == [] && es[..0] == [] && poll[0..] == poll && es[0..] == es;
  }

  lemma SqueezeNext(poll: seq<PollFd>, es: seq<Option<Socket>>, m: nat, poll': seq<PollFd>, es': seq<Option<Socket>>,
                    i: nat)
    requires m < |poll| && InStep(poll, es) && Squeezed(poll, es, m, poll', es', i)
    ensures i < |poll'| == |es'| && poll'[i] == poll[m] && (poll[m].fd == -1 <==> es[m].None?)
  {
  }

  lemma SqueezeDone(poll: seq<PollFd>, es: seq<Option<Socket>>, poll': seq<PollFd>, es': seq<Option<Socket>>, i: nat)
    requires |poll| == |es| && Squeezed(poll, es, |poll|, poll', es', i)
    ensures poll' == LivePoll(poll) && |es'| == |Live(es)| && Live(es') == Live(es)
         && forall k :: 0 <= k < |es'| ==> es'[k].Some?
  {
    assert poll[..|poll|] == poll && es[..|es|] == es && es' == Somes(Live(es));
    LiveOfAllLive(es');
  }

  lemma SqueezeDead(poll: seq<PollFd>, es: seq<Option<Socket>>, m: nat, poll': seq<PollFd>, es': seq<Option<Socket>>,
                    i: nat)
    requires m < |poll| == |es| && Squeezed(poll, es, m, poll', es', i)
    requires poll[m].fd == -1 && es[m].None?
    ensures i < |poll'| == |es'| && Squeezed(poll, es, m + 1, Cut(poll', i), Cut(es', i), i)
  {
    assert poll[..m + 1][..m] == poll[..m] && es[..m + 1][..m] == es[..m];
    assert poll'[i + 1..] == poll[m + 1..] && es'[i + 1..] == es[m + 1..];
  }

  lemma SqueezeLive(poll: seq<PollFd>, es: seq<Option<Socket>>, m: nat, poll': seq<PollFd>, es': seq<Option<Socket>>,
                    i: nat)
    requires m < |poll| == |es| && Squeezed(poll, es, m, poll', es', i)
    requires poll[m].fd != -1 && es[m].Some?
    ensures Squeezed(poll, es, m + 1, poll', es', i + 1)
  {
    assert poll[..m + 1][..m] == poll[..m] && es[..m + 1][..m] == es[..m];
    assert poll[m..] == [poll[m]] + poll[m + 1..] && es[m..] == [es[m]] + es[m + 1..];
    assert Somes(Live(es[..m]) + [es[m].value]) == Somes(Live(es[..m])) + [es[m]];
  }

  lemma ReindexedStep(index: map<Socket, nat>, es: seq<Option<Socket>>, from: nat, j: nat)
    requires from <= j < |es| - 1
    ensures Reindexed(index, es[from + 1..j + 2], from)
         == Placed(Reindexed(index, es[from + 1..j + 1], from), es[j + 1], j)
  {
    assert es[from + 1..j + 2][..j - from] == es[from + 1..j + 1];
  }

  function Cut<T>(s: seq<T>, i: nat): seq<T>
    requires i < |s|
  {
    s[..i] + s[i + 1..]
  }

  /** Slots i+1 up to j have moved one to the left. */
  function Shifted<T>(s: seq<T>, i: nat, j: nat): seq<T>
    requires i <= j < |s|
  {
    s[..i] + s[i + 1..j + 1] + s[j..]
  }

  lemma CutIsShift<T>(s: seq<T>, i: nat, n: nat)
    requires i < n <= |s|
    ensures |Shifted(s, i, n - 1)| == |s| && Shifted(s, i, n - 1)[..n - 1] == Cut(s[..n], i)
         && s[..n][i + 1..] == s[i + 1..n]
  {
  }

  lemma ShiftedStart<T>(s: seq<T>, i: nat)
    requires i < |s|
    ensures Shifted(s, i, i) == s
  {
  }

  lemma ShiftedStep<T>(s: seq<T>, i: nat, j: nat)
    requires i <= j < |s| - 1
    ensures |Shifted(s, i, j)| == |s| && Shifted(s, i, j)[j + 1] == s[j + 1]
    ensures Shifted(s, i, j)[j := s[j + 1]] == Shifted(s, i, j + 1)
  {
  }

  /** The context with its two arrays; `count` slots are in use. */
  class Context {
    var poll: array<PollFd>
    var es: array<Option<Socket>>    // poll_esocket
    var count: nat                   // poll_count
    var compress: bool               // poll_compress
    var index: map<Socket, nat>      // poll_index of each socket
    var attached: set<Socket>        // sockets whose context is set
    var table: map<nat, Socket>      // esockets, by uuid
    var total: int                   // event_sockets_count

    ghost predicate Valid()
      reads this, poll, es
    {
      poll.Length == es.Length >= 1 && count <= es.Length && Inv(View())
    }

    ghost predicate Formed()
      reads this, poll, es
    {
      poll.Length == es.Length >= 1 && count <= es.Length && Shaped(View())
    }

    ghost function View(): State
      reads this, poll, es
      requires count <= es.Length == poll.Length
    {
      State(poll[..count], es[..count], index, attached, table, total, compress)
    }

    constructor (capacity: nat)
      requires capacity >= 1
      ensures Valid() && fresh(poll) && fresh(es) && View() == State([], [], map[], {}, map[], 0, false)
    {
      poll := new PollFd[capacity](_ => PollFd(-1, 0, 0));
      es := new Option<Socket>[capacity](_ => None);
      count, compress, index, attached, table, total := 0, false, map[], {}, map[], 0;
    }

    /** Both arrays are doubled when full. */
    method Grow()
      requires poll.Length == es.Length == count >= 1
      modifies this`poll, this`es
      ensures fresh(poll) && fresh(es) && poll.Length == es.Length == 2 * count
      ensures poll[..count] == old(poll[..]) && es[..count] == old(es[..])
    {
      var p := new PollFd[2 * count];
      var e := new Option<Socket>[2 * count];
      var i := 0;
      while i < count
        invariant 0 <= i <= count && poll == old(poll) && es == old(es)
        invariant p[..i] == poll[..i] && e[..i] == es[..i]
      {
        p[i], e[i] := poll[i], es[i];
        i := i + 1;
      }
      poll, es := p, e;
    }

    method AppendSlot(p: PollFd, e: Option<Socket>)
      requires poll.Length == es.Length >= 1 && count <= es.Length
      modifies this`poll, this`es, this`count, poll, es
      ensures (poll == old(poll) || fresh(poll)) && (es == old(es) || fresh(es))
      ensures poll.Length == es.Length >= count == old(count) + 1
      ensures poll[..count] == old(poll[..count]) + [p] && es[..count] == old(es[..count]) + [e]
    {
      if count == es.Length {
        Grow();
      }
      poll[count] := p;
      es[count] := e;
      count := count + 1;
    }

    /** `dap_context_add`. */
    method AddSocket(s: Socket)
      requires Formed()
      modifies this, poll, es
      ensures Formed() && (poll == old(poll) || fresh(poll)) && (es == old(es) || fresh(es))
      ensures View() == Added(old(View()), s)
      ensures old(Valid()) ==> (Valid() <==> s.fd != -1 && s.uuid !in old(table))
    {
      hide Inv;
      ghost var c := View();
      if Inv(c) {
        AddKeepsInvIff(c, s);
      }
      index := index[s := count];
      AppendSlot(PollFd(s.fd, s.events, 0), Some(s));
      attached := attached + {s};
      if s.uuid !in table {
        table := table[s.uuid := s];
        total := total + 1;
      }
      assert View() == Added(c, s);
    }

    /** A slot is marked in both arrays. */
    method FreeSlot(k: nat)
      requires k < count <= es.Length == poll.Length
      modifies poll, es
      ensures poll[..count] == old(poll[..count])[k := old(poll[..count])[k].(fd := -1)]
      ensures es[..count] == old(es[..count])[k := None]
    {
      poll[k] := poll[k].(fd := -1);
      es[k] := None;
    }

    /** `dap_context_remove`. */
    method RemoveSocket(s: Socket) returns (rc: int)
      requires Formed()
      modifies this, poll, es
      ensures Formed() && poll == old(poll) && es == old(es)
      ensures View() == Removed(old(View()), s) && rc == RemoveCode(old(View()), s)
      ensures old(Valid()) ==> Valid() && rc == if s.uuid in old(table) && old(table)[s.uuid] == s then 0 else -1
    {
      hide Inv;
      ghost var c := View();
      if Inv(c) {
        RemoveKeepsInv(c, s);
      }
      if s !in attached {
        return -1;
      }
      if s.uuid in table && table[s.uuid] == s {
        total := total - 1;
        table := table - {s.uuid};
      }
      rc := -2;
      if index[s] < count {
        FreeSlot(index[s]);
        compress := true;
        rc := 0;
      }
      attached := attached - {s};
      assert View() == Removed(c, s);
    }

    /** One slot moves to the left; the socket in it learns its new place. */
    method MoveSlot(j: nat)
      requires j + 1 < es.Length == poll.Length
      modifies this`index, poll, es
      ensures poll[..] == old(poll[..])[j := old(poll[..])[j + 1]] && es[..] == old(es[..])[j := old(es[..])[j + 1]]
      ensures index == Placed(old(index), old(es[..])[j + 1], j)
    {
      poll[j] := poll[j + 1];
      es[j] := es[j + 1];
      if es[j].Some? {
        index := index[es[j].value := j];
      }
    }

    /** Closes the gap at slot i. */
    method Shift(i: nat)
      requires i < count <= es.Length == poll.Length
      modifies this`index, poll, es
      ensures poll[..] == Shifted(old(poll[..]), i, count - 1) && es[..] == Shifted(old(es[..]), i, count - 1)
      ensures index == Reindexed(old(index), old(es[..])[i + 1..count], i)
    {
      hide Reindexed, Shifted, Placed;
      ghost var p, e, was := poll[..], es[..], index;
      ShiftedStart(p, i);
      ShiftedStart(e, i);
      ReindexedStart(was, e, i);
      var j := i;
      while j < count - 1
        invariant i <= j <= count - 1 && |p| == |e| == es.Length
        invariant poll[..] == Shifted(p, i, j) && es[..] == Shifted(e, i, j)
        invariant index == Reindexed(was, e[i + 1..j + 1], i)
      {
        ShiftedStep(p, i, j);
        ShiftedStep(e, i, j);
        ReindexedStep(was, e, i, j);
        MoveSlot(j);
        j := j + 1;
      }
    }

    /** One dead slot is squeezed out. */
    method Drop(i: nat, ghost p: seq<PollFd>, ghost e: seq<Option<Socket>>, ghost m: nat)
      requires i < count <= es.Length == poll.Length && m < |p| == |e| && p[m].fd == -1 && e[m].None?
      requires Squeezed(p, e, m, poll[..count], es[..count], i) && PointBack(es[..count], index)
      modifies this`index, this`count, poll, es
      ensures count == old(count) - 1
      ensures Squeezed(p, e, m + 1, poll[..count], es[..count], i) && PointBack(es[..count], index)
    {
      hide Squeezed, PointBack, Reindexed, Live, LivePoll, Cut, Shifted;
      SqueezeDead(p, e, m, poll[..count], es[..count], i);
      CloseGap(es[..count], index, i);
      CutIsShift(poll[..], i, count);
      CutIsShift(es[..], i, count);
      assert poll[..][..count] == poll[..count] && es[..][..count] == es[..count];
      Shift(i);
      count := count - 1;
      assert poll[..][..count] == poll[..count] && es[..][..count] == es[..count];
    }

    /** The first m slots of p and e have been squeezed into i. */
    ghost predicate Halfway(p: seq<PollFd>, e: seq<Option<Socket>>, m: nat, i: nat)
      reads this, poll, es
    {
      && i <= count <= es.Length == poll.Length && InStep(p, e) && m == i + |p| - count <= |p|
      && Squeezed(p, e, m, poll[..count], es[..count], i) && PointBack(es[..count], index)
    }

    /** One turn of the outer loop: a dead slot goes, a live one stays. */
    method SqueezeSlot(i: nat, ghost p: seq<PollFd>, ghost e: seq<Option<Socket>>, ghost m: nat) returns (next: nat)
      requires i < count && Halfway(p, e, m, i)
      modifies this`index, this`count, poll, es
      ensures Halfway(p, e, m + 1, next) && count - next == old(count) - i - 1
    {
      hide Live, LivePoll, Squeezed, PointBack;
      ghost var p', e' := poll[..count], es[..count];
      SqueezeNext(p, e, m, p', e', i);
      assert poll[i] == p'[i];
      if poll[i].fd == -1 {
        Drop(i, p, e, m);
        return i;
      }
      SqueezeLive(p, e, m, p', e', i);
      return i + 1;
    }

    /** The nested loops of the compression: dead slots are squeezed out one by one. */
    method Squeeze(ghost p: seq<PollFd>, ghost e: seq<Option<Socket>>) returns (i: nat)
      requires count <= es.Length == poll.Length && p == poll[..count] && e == es[..count] && PointBack(e, index)
            && InStep(p, e)
      modifies this`index, this`count, poll, es
      ensures i == count && Halfway(p, e, |p|, i)
    {
      SqueezeStart(p, e);
      ghost var m := 0;
      i := 0;
      assert Halfway(p, e, m, i);
      hide Halfway, InStep, PointBack;
      while i < count
        invariant i <= count && Halfway(p, e, m, i) && m == i + |p| - count
        decreases count - i
      {
        i := SqueezeSlot(i, p, e, m);
        m := m + 1;
      }
    }

    /** The compression at the end of a turn of the worker's loop. */
    method CompressSlots()
      requires Valid()
      modifies this`compress, this`index, this`count, poll, es
      ensures Valid() && Step(old(View()), Compress, View())
    {
      hide Live, Squeezed;
      ghost var c := View();
      if compress {
        compress := false;
        forall k | 0 <= k < count
          ensures (poll[k].fd == -1 <==> es[k].None?)
               && (es[k].Some? ==> es[k].value in index && index[es[k].value] == k)
        {
          assert SlotOk(c, k);
        }
        hide Inv, LivePoll;
        ghost var p, e := poll[..count], es[..count];
        var i := Squeeze(p, e);
        SqueezeDone(p, e, poll[..count], es[..count], i);
      }
      assert Compressed(c, View());
      CompressKeepsInv(c, View());
    }

    /** `dap_context_find`. */
    method Find(uuid: nat) returns (r: Option<Socket>)
      requires Valid()
      ensures r.Some? ==> r.value.uuid == uuid && r.value in index && index[r.value] < count && es[index[r.value]] == r
      ensures r.None? ==> forall i :: 0 <= i < count && es[i].Some? ==> es[i].value.uuid != uuid
    {
      if uuid in table {
        assert EntryOk(View(), uuid);
        return Some(table[uuid]);
      }
      forall i | 0 <= i < count && es[i].Some? ensures es[i].value.uuid != uuid {
        assert SlotOk(View(), i);
      }
      return None;
    }
  }
}
