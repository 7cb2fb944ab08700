/** The processing thread: callbacks in priority lists, pulled one by one, re-queued on request. */
module ProcThread {
  import opened Bytes

  datatype Item = Item(callback: nat, arg: nat)   // callback 0 is NULL

  const LEVELS: nat := 5   // DAP_QUEUE_MSG_PRIORITY_IDLE .. DAP_QUEUE_MSG_PRIORITY_CRITICAL

  /** The priority lists, and the item whose callback is being run. */
  datatype State = State(queue: seq<seq<Item>>, size: nat, running: Option<(Item, nat)>)

  /** Critical sections of producers and of the thread. */
  datatype Event = Add(item: Item, level: int) | Pull | Finish(again: bool)

  function Total(queue: seq<seq<Item>>): nat {
    if queue == [] then 0 else |queue[0]| + Total(queue[1..])
  }

  predicate Accepts(item: Item, level: int) {
    item.callback != 0 && 0 <= level < LEVELS
  }

  function Added(s: State, item: Item, level: int): State
    requires |s.queue| == LEVELS
  {
    if Accepts(item, level) then s.(queue := s.queue[level := s.queue[level] + [item]], size := s.size + 1) else s
  }

  /** The highest non-empty level. */
  function Highest(queue: seq<seq<Item>>): (r: Option<nat>)
    ensures r.Some? ==>
              && r.value < |queue| && queue[r.value] != []
              && forall i :: r.value < i < |queue| ==> queue[i] == []
    ensures r.None? ==> forall i :: 0 <= i < |queue| ==> queue[i] == []
  {
    if queue == [] then None
    else
      var k := |queue| - 1;
      if queue[k] != [] then Some(k) else Highest(queue[..k])
  }

  function Pulled(s: State): State
    requires |s.queue| == LEVELS
  {
    var k := Highest(s.queue);
    if s.size == 0 || k.None? then s
    else State(s.queue[k.value := s.queue[k.value][1..]], s.size - 1, Some((s.queue[k.value][0], k.value)))
  }

  function Finished(s: State, again: bool): State
    requires |s.queue| == LEVELS && s.running.Some?
  {
    var s' := s.(running := None);
    if again then Added(s', s.running.value.0, s.running.value.1) else s'
  }

  ghost predicate Inv(s: State) {
    && |s.queue| == LEVELS && s.size == Total(s.queue)
    && (forall k, j :: 0 <= k < LEVELS && 0 <= j < |s.queue[k]| ==> s.queue[k][j].callback != 0)
    && (s.running.Some? ==> Accepts(s.running.value.0, s.running.value.1))
  }

  predicate Enabled(s: State, e: Event) {
    match e
    case Add(_, _) => true
    case Pull => s.running.None?
    case Finish(_) => s.running.Some?
  }

  function Step(s: State, e: Event): State
    requires |s.queue| == LEVELS && Enabled(s, e)
  {
    match e
    case Add(item, level) => Added(s, item, level)
    case Pull => Pulled(s)
    case Finish(again) => Finished(s, again)
  }

  predicate Run(ss: seq<State>, es: seq<Event>) {
    |ss| == |es| + 1 &&
    forall i :: 0 <= i < |es| ==> |ss[i].queue| == LEVELS && Enabled(ss[i], es[i]) && ss[i + 1] == Step(ss[i], es[i])
  }

  lemma {:induction false} TotalAt(queue: seq<seq<Item>>, k: nat, l: seq<Item>)
    requires k < |queue|
    ensures Total(queue[k := l]) == Total(queue) - |queue[k]| + |l|
  {
    if k == 0 {
      assert queue[k := l][1..] == queue[1..];
    } else {
      TotalAt(queue[1..], k - 1, l);
      assert queue[k := l][1..] == queue[1..][k - 1 := l];
    }
  }

  lemma {:induction false} TotalZero(queue: seq<seq<Item>>)
    ensures Total(queue) == 0 <==> forall i :: 0 <= i < |queue| ==> queue[i] == []
  {
    if queue != [] {
      TotalZero(queue[1..]);
      assert forall i :: 0 < i < |queue| ==> queue[i] == queue[1..][i - 1];
    }
  }

  lemma SizeMeans(s: State)
    requires Inv(s)
    ensures |s.queue| == LEVELS && (s.size == 0 <==> forall i :: 0 <= i < LEVELS ==> s.queue[i] == [])
  {
    TotalZero(s.queue);
  }

  lemma AddKeepsInv(s: State, item: Item, level: int)
    requires Inv(s)
    ensures Inv(Added(s, item, level))
  {
    if Accepts(item, level) {
      TotalAt(s.queue, level, s.queue[level] + [item]);
    }
  }

  lemma PullKeepsInv(s: State)
    requires Inv(s) && s.running.None?
    ensures Inv(Pulled(s)) && (Pulled(s).running.None? <==> forall i :: 0 <= i < LEVELS ==> s.queue[i] == [])
  {
    TotalZero(s.queue);
    var k := Highest(s.queue);
    hide Highest, Total;
    if k.Some? {
      TotalAt(s.queue, k.value, s.queue[k.value][1..]);
    }
  }

  /** Every step keeps the counter right; a pull finds nothing only when nothing is queued. */
  lemma StepKeepsInv(s: State, e: Event)
    requires Inv(s) && Enabled(s, e)
    ensures Inv(Step(s, e))
    ensures e.Pull? ==> (Step(s, e).running.None? <==> forall i :: 0 <= i < LEVELS ==> s.queue[i] == [])
  {
    hide Added, Pulled;
    match e
    case Add(item, level) => AddKeepsInv(s, item, level);
    case Pull => PullKeepsInv(s);
    case Finish(again) => AddKeepsInv(s.(running := None), s.running.value.0, s.running.value.1);
  }

  lemma {:induction false} RunKeepsInv(ss: seq<State>, es: seq<Event>)
    requires Run(ss, es) && Inv(ss[0])
    ensures Inv(ss[|es|])
  {
    if es != [] {
      var k := |es| - 1;
      RunKeepsInv(ss[..k + 1], es[..k]);
      StepKeepsInv(ss[k], es[k]);
    }
  }

  // What goes in and out of one level.

  function In(s: State, e: Event, level: nat): seq<Item> {
    match e
    case Add(item, l) => if l == level && Accepts(item, l) then [item] else []
    case Finish(again) =>
      if again && s.running.Some? && s.running.value.1 == level && Accepts(s.running.value.0, level)
      then [s.running.value.0]
      else []
    case Pull => []
  }

  function Out(s: State, e: Event, level: nat): seq<Item> {
    if e.Pull? && s.size != 0 && Highest(s.queue) == Some(level) && level < |s.queue| then [s.queue[level][0]] else []
  }

  function AllIn(ss: seq<State>, es: seq<Event>, level: nat): seq<Item>
    requires |ss| == |es| + 1
  {
    if es == [] then [] else AllIn(ss[..|es|], es[..|es| - 1], level) + In(ss[|es| - 1], es[|es| - 1], level)
  }

  function AllOut(ss: seq<State>, es: seq<Event>, level: nat): seq<Item>
    requires |ss| == |es| + 1
  {
    if es == [] then [] else AllOut(ss[..|es|], es[..|es| - 1], level) + Out(ss[|es| - 1], es[|es| - 1], level)
  }

  lemma StepBalances(s: State, e: Event, level: nat)
    requires |s.queue| == LEVELS && Enabled(s, e) && level < LEVELS
    ensures s.queue[level] + In(s, e, level) == Out(s, e, level) + Step(s, e).queue[level]
  {
  }

  lemma Balance(first: seq<Item>, i: seq<Item>, o: seq<Item>, q: seq<Item>, i': seq<Item>, o': seq<Item>, q': seq<Item>)
    requires first + i == o + q && q + i' == o' + q'
    ensures first + (i + i') == (o + o') + q'
  {
    assert first + (i + i') == (o + q) + i' == o + (q + i') == (o + o') + q';
  }

  /**
   Each level is first in, first out: what was there and what came in
   is what was pulled and what is left, in order.
   */
  lemma {:induction false} LevelIsFifo(ss: seq<State>, es: seq<Event>, level: nat)
    requires Run(ss, es) && level < LEVELS && |ss[|es|].queue| == LEVELS
    ensures ss[0].queue[level] + AllIn(ss, es, level) == AllOut(ss, es, level) + ss[|es|].queue[level]
  {
    hide In, Out, Step;
    if es != [] {
      var k := |es| - 1;
      var s, e := ss[k], es[k];
      LevelIsFifo(ss[..k + 1], es[..k], level);
      StepBalances(s, e, level);
      var i, o := AllIn(ss[..k + 1], es[..k], level), AllOut(ss[..k + 1], es[..k], level);
      hide AllIn, AllOut;
      Balance(ss[0].queue[level], i, o, s.queue[level], In(s, e, level), Out(s, e, level), ss[k + 1].queue[level]);
    }
  }

  /**
   Scheduling, over every run: the size counter is the number of queued items; an item with k ahead
   of it in its level is the item of the pull from that level that follows exactly k earlier ones,
   and until then it only moves up, whatever callbacks queue themselves again.
   */
  lemma RunsAfterThoseAhead(ss: seq<State>, es: seq<Event>, level: nat, k: nat)
    requires Run(ss, es) && Inv(ss[0]) && level < LEVELS && k < |ss[0].queue[level]|
    ensures ss[|es|].size == Total(ss[|es|].queue) && |ss[|es|].queue| == LEVELS
    ensures var pulls := |AllOut(ss, es, level)|; var item := ss[0].queue[level][k];
            if pulls <= k then k - pulls < |ss[|es|].queue[level]| && ss[|es|].queue[level][k - pulls] == item
            else AllOut(ss, es, level)[k] == item
  {
    RunKeepsInv(ss, es);
    LevelIsFifo(ss, es, level);
    var o, q := AllOut(ss, es, level), ss[|es|].queue[level];
    assert (o + q)[k] == (ss[0].queue[level] + AllIn(ss, es, level))[k];
  }

  /** A pull serves a level only when no higher one waits, so it never passes over a more urgent item. */
  lemma PullIsMostUrgent(ss: seq<State>, es: seq<Event>, i: nat, level: nat)
    requires Run(ss, es) && Inv(ss[0]) && i < |es| && es[i].Pull? && level < LEVELS
    ensures |ss[i].queue| == LEVELS
    ensures |Out(ss[i], es[i], level)| == 1 <==>
              ss[i].queue[level] != [] && forall l :: level < l < LEVELS ==> ss[i].queue[l] == []
  {
    RunKeepsInv(ss[..i + 1], es[..i]);
    TotalZero(ss[i].queue);
  }

  /** A callback that asks for it goes to the end of the level that it was pulled from, whatever came in between. */
  lemma GoesBack(ss: seq<State>, es: seq<Event>, level: nat, other: nat)
    requires Run(ss, es) && Inv(ss[0]) && level < LEVELS && |es| >= 2 && es[0].Pull? && es[|es| - 1] == Finish(true)
    requires |Out(ss[0], es[0], level)| == 1 && forall i :: 0 < i < |es| - 1 ==> es[i].Add?
    ensures In(ss[|es| - 1], es[|es| - 1], level) == Out(ss[0], es[0], level)
    ensures other != level ==> In(ss[|es| - 1], es[|es| - 1], other) == []
  {
    hide Highest, Total;
    var k := |es| - 1;
    PullRuns(ss[0], level);
    assert ss[1] == Step(ss[0], es[0]);
    RunKeepsInv(ss[..k + 1], es[..k]);
    StillRuns(ss, es, k);
  }

  lemma PullRuns(s: State, level: nat)
    requires |s.queue| == LEVELS && level < LEVELS && |Out(s, Pull, level)| == 1
    ensures Pulled(s).running == Some((Out(s, Pull, level)[0], level))
  {
  }

  lemma {:induction false} StillRuns(ss: seq<State>, es: seq<Event>, k: nat)
    requires Run(ss, es) && 1 <= k <= |es| && forall i :: 0 < i < k ==> es[i].Add?
    ensures ss[k].running == ss[1].running
  {
    if k > 1 {
      StillRuns(ss, es, k - 1);
      assert ss[k] == Step(ss[k - 1], es[k - 1]);
    }
  }

  /** The thread with its lists. */
  class Thread {
    var queue: array<seq<Item>>
    var size: nat
    var running: Option<(Item, nat)>

    ghost predicate Valid()
      reads this, queue
    {
      queue.Length == LEVELS && Inv(View())
    }

    ghost function View(): State
      reads this, queue
    {
      State(queue[..], size, running)
    }

    constructor ()
      ensures Valid() && fresh(queue) && View() == State(seq(LEVELS, _ => []), 0, None)
    {
      queue, size, running := new seq<Item>[LEVELS](_ => []), 0, None;
      new;
      assert queue[..] == seq(LEVELS, _ => []);
      TotalZero(queue[..]);
    }

    /** `dap_proc_thread_callback_add_pri` on a given thread. */
    method AddPri(item: Item, level: int) returns (rc: int)
      requires Valid()
      modifies this`size, queue
      ensures Valid() && View() == Step(old(View()), Add(item, level))
      ensures rc == (if Accepts(item, level) then 0 else -1)
    {
      hide Inv;
      ghost var next := Step(View(), Add(item, level));
      StepKeepsInv(View(), Add(item, level));
      if item.callback == 0 || level < 0 || level > LEVELS - 1 {
        return -1;
      }
      queue[level] := queue[level] + [item];
      size := size + 1;
      assert View() == next;
      return 0;
    }

    /** `s_proc_queue_pull`, as called by the loop; the pulled item is the running one. */
    method PullItem()
      requires Valid() && running.None?
      modifies this`size, this`running, queue
      ensures Valid() && View() == Step(old(View()), Pull)
    {
      hide Inv;
      ghost var next := Step(View(), Pull);
      StepKeepsInv(View(), Pull);
      if size == 0 {
        return;
      }
      SizeMeans(View());
      var i := LEVELS - 1;
      while i >= 0 && queue[i] == []
        invariant -1 <= i < LEVELS
        invariant forall l :: i < l < LEVELS ==> queue[l] == []
      {
        i := i - 1;
      }
      assert forall l :: 0 <= l < LEVELS ==> queue[..][l] == queue[l];
      assert Highest(queue[..]) == Some(i);
      running := Some((queue[i][0], i));
      queue[i] := queue[i][1..];
      size := size - 1;
      assert View() == next;
    }

    /** The end of a turn of `dap_proc_thread_loop`: a callback that returned true is queued again at its level. */
    method Complete(again: bool)
      requires Valid() && running.Some?
      modifies this`size, this`running, queue
      ensures Valid() && View() == Step(old(View()), Finish(again))
    {
      ghost var next := Step(View(), Finish(again));
      var (item, level) := running.value;
      running := None;
      if again {
        var _ := AddPri(item, level);
      }
      assert View() == next;
    }
  }

  const UINT32_MAX: nat := TWO_TO_32 - 1

  /** `dap_proc_thread_get_auto`: a circular scan from `start`, with a 32-bit minimum. */
  method GetAuto(sizes: seq<nat>, start: nat) returns (min: nat)
    requires start < |sizes| < TWO_TO_32 / 2
    ensures min < |sizes|
    ensures (forall j :: 0 <= j < |sizes| ==> sizes[min] <= sizes[j]) <==>
              (exists j :: 0 <= j < |sizes| && sizes[j] < UINT32_MAX)
                || forall j :: 0 <= j < |sizes| ==> sizes[start] <= sizes[j]
    ensures (exists j :: 0 <= j < |sizes| && sizes[j] < UINT32_MAX) || min == start
    ensures forall j :: start <= j < |sizes| && (j < min || min < start) ==> sizes[min] < sizes[j]
    ensures forall j :: 0 <= j < min < start ==> sizes[min] < sizes[j]
  {
    min := start;
    var sizeMin := UINT32_MAX;
    var i := start;
    while i < |sizes| + start
      invariant start <= i <= |sizes| + start && min < |sizes|
      invariant forall j :: start <= j < i && j < |sizes| ==> sizeMin <= sizes[j]
      invariant forall j :: 0 <= j < i - |sizes| ==> sizeMin <= sizes[j]
      invariant forall j :: start <= j < |sizes| && (j < min || min < start) ==> sizeMin < sizes[j]
      invariant forall j :: 0 <= j < min < start ==> sizeMin < sizes[j]
      invariant sizeMin <= UINT32_MAX && if sizeMin < UINT32_MAX then sizes[min] == sizeMin else min == start
    {
      var cur := if i < |sizes| then i else i - |sizes|;
      if sizes[cur] < sizeMin {
        sizeMin := sizes[cur];
        min := cur;
        if sizeMin == 0 {
          break;
        }
      }
      i := i + 1;
    }
  }
}
