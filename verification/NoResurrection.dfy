/**
 No resurrection: over every run of writes, received lists and sweeps, a record that is accepted for
 a key is newer than every record ever stored for that key, also after the sweep erased the newest.
 */
module NoResurrection {
  import opened Bytes
  import opened DriverHash
  import opened Packet
  import opened Envelope
  import opened MdbxTable
  import opened MdbxDriver
  import opened GlobalDb
  import opened Sweep
  import opened Consistency

  /** A record offered to the store, by the network or locally, or one pass of the sweep over a group. */
  datatype Op = Offer(obj: StoreObj) | Clean(group: bytes)
  datatype Event = Event(op: Op, now: u64)

  /** The rows ever stored, with their groups. */
  type History = set<(bytes, Row)>

  const LOCAL_MASK: bytes := [108, 111, 99, 97, 108, 46, 42]   // "local.*"

  function RulesOf(node: Node, group: bytes): Option<Rules> {
    var cl := ByGroup(node.clusters, group);
    if cl.Some? then Some(Rules(cl.value.ttl, Covers(LOCAL_MASK, group))) else None
  }

  /** The record written by an event, if any. */
  function Stored(node: Node, ts: Tables, e: Event): Option<StoreObj>
    requires e.op.Offer? ==> Plain(e.op.obj)
  {
    if e.op.Offer? then Apply(node, ts, e.op.obj, e.now).stored else None
  }

  function Next(node: Node, ts: Tables, e: Event): Tables
    requires e.op.Offer? ==> Plain(e.op.obj)
  {
    match e.op
    case Offer(o) => Apply(node, ts, o, e.now).tables
    case Clean(group) =>
      if group in ts && RulesOf(node, group).Some? then Pass(RulesOf(node, group).value, group, ts, e.now) else ts
  }

  function Recorded(hist: History, stored: Option<StoreObj>): History {
    if stored.Some? then hist + {(stored.value.group, RowOf(stored.value))} else hist
  }

  /** A stored row that is gone has left a newer row behind, or is past its time to live. */
  ghost predicate Remembered(node: Node, ts: Tables, group: bytes, r: Row, clock: int) {
    var x := FindKey(TableOf(ts, group), r.key);
    if x.Some? then r.hash.AtMost(x.value.hash)
    else
      var cl := ByGroup(node.clusters, group);
      cl.Some? && cl.value.ttl > 0 && r.hash.ts + cl.value.ttl < clock
  }

  ghost predicate Inv(node: Node, ts: Tables, hist: History, clock: int, steps: nat) {
    && (forall g :: g in ts ==> Tidy(ts[g]) && Printable(g))
    && (forall g, r :: g in ts && r in ts[g] ==> (g, r) in hist)
    && (forall p :: p in hist ==> p.1.hash.ts <= clock + steps)
    && (forall p :: p in hist ==> Remembered(node, ts, p.0, p.1, clock))
  }

  /**
   What a run is asked for: a clock that does not go back and stays clear of the end of its
   64-bit range, records that can be found again, a restamped record whose checksum does not
   collide, and no sweep of a local group without time to live.
   */
  ghost predicate Admissible(node: Node, ts: Tables, e: Event, clock: int, steps: nat) {
    && clock <= e.now
    && (forall cl :: cl in node.clusters ==> e.now + steps + 1 + cl.ttl < TWO_TO_64)
    && match e.op
       case Offer(o) =>
         && Plain(o) && Findable(o)
         && (Stored(node, ts, e).Some? ==> Get(TableOf(ts, o.group), HashOf(Stored(node, ts, e).value)).None?)
       case Clean(group) =>
         RulesOf(node, group).Some? ==> RulesOf(node, group).value.ttl != 0 || !RulesOf(node, group).value.local
  }

  /** The written record is strictly newer than everything ever stored for its key. */
  ghost predicate Newest(hist: History, o: StoreObj) {
    forall p :: p in hist && p.0 == o.group && p.1.key == o.key ==> p.1.hash.Less(HashOf(o))
  }

  lemma {:induction false} ByGroupIn(clusters: seq<Cluster>, group: bytes)
    ensures ByGroup(clusters, group).Some? ==> ByGroup(clusters, group).value in clusters
  {
    if clusters != [] {
      ByGroupIn(clusters[1..], group);
    }
  }

  lemma OfferIsNewest(node: Node, ts: Tables, hist: History, e: Event, clock: int, steps: nat)
    requires node.crypto.Sound() && e.op.Offer? && Inv(node, ts, hist, clock, steps)
          && Admissible(node, ts, e, clock, steps)
    requires Stored(node, ts, e).Some?
    ensures Newest(hist, Stored(node, ts, e).value)
    ensures Stored(node, ts, e).value.timestamp <= e.now + steps + 1
  {
    hide Apply, FindKey, Covers, Tidy;
    var o, s := e.op.obj, Stored(node, ts, e).value;
    var x, cl := FindKey(TableOf(ts, o.group), o.key), ByGroup(node.clusters, o.group);
    AppliedMeans(node, ts, o, e.now);
    AcceptedIsFresh(node, ts, o, e.now);
    AcceptedIsNewer(node, ts, o, e.now);
    ByGroupIn(node.clusters, o.group);
    if x.Some? {
      assert (o.group, x.value) in hist;
    }
  }

  lemma OfferKeepsInv(node: Node, ts: Tables, hist: History, e: Event, clock: int, steps: nat)
    requires node.crypto.Sound() && e.op.Offer? && Inv(node, ts, hist, clock, steps)
          && Admissible(node, ts, e, clock, steps)
    ensures Inv(node, Next(node, ts, e), Recorded(hist, Stored(node, ts, e)), e.now, steps + 1)
  {
    hide Apply, Store, Tidy, Printable;
    var o, s := e.op.obj, Stored(node, ts, e);
    AppliedMeans(node, ts, o, e.now);
    if s.Some? {
      OfferIsNewest(node, ts, hist, e, clock, steps);
      hide Inv, FindKey;
      InvAfterStore(node, ts, hist, s.value, clock, e.now, steps);
    } else {
      hide FindKey;
    }
  }

  lemma InvAfterStore(node: Node, ts: Tables, hist: History, s: StoreObj, clock: int, now: int, steps: nat)
    requires Inv(node, ts, hist, clock, steps) && clock <= now && s.timestamp <= now + steps + 1 && Newest(hist, s)
    requires Findable(s) && s.key != [] && Printable(s.key) && Printable(s.group) && s.crc != 0 && WellSized(s.sign)
    requires Get(TableOf(ts, s.group), HashOf(s)).None?
    ensures Inv(node, ts[s.group := Store(TableOf(ts, s.group), s)], hist + {(s.group, RowOf(s))}, now, steps + 1)
  {
    hide FindKey, Store, Remembered, Printable;
    StoreKeeps(TableOf(ts, s.group), s);
    hide Tidy;
    var ts', hist' := ts[s.group := Store(TableOf(ts, s.group), s)], hist + {(s.group, RowOf(s))};
    forall p | p in hist' ensures Remembered(node, ts', p.0, p.1, now) {
      RememberedAfterStore(node, ts, ts', s, p.0, p.1, clock, now);
    }
  }

  lemma RememberedAfterStore(node: Node, ts: Tables, ts': Tables, o: StoreObj, group: bytes, r: Row, clock: int,
                             now: int)
    requires clock <= now && ts' == ts[o.group := TableOf(ts', o.group)]
    requires FindKey(TableOf(ts', o.group), o.key) == Some(RowOf(o))
    requires forall k :: k != o.key ==> FindKey(TableOf(ts', o.group), k) == FindKey(TableOf(ts, o.group), k)
    requires (group, r) == (o.group, RowOf(o)) || Remembered(node, ts, group, r, clock)
    requires group == o.group && r.key == o.key ==> r.hash.AtMost(HashOf(o))
    requires (group, r) == (o.group, RowOf(o)) ==> r.key == o.key
    ensures Remembered(node, ts', group, r, now)
  {
    hide FindKey, ByGroup;
  }

  lemma CleanKeepsInv(node: Node, ts: Tables, hist: History, e: Event, clock: int, steps: nat)
    requires node.crypto.Sound() && e.op.Clean? && Inv(node, ts, hist, clock, steps)
          && Admissible(node, ts, e, clock, steps)
    ensures Inv(node, Next(node, ts, e), hist, e.now, steps + 1)
  {
    hide Pass, Covers, ByGroup, FindKey, Tidy, Printable;
    var group, rules := e.op.group, RulesOf(node, e.op.group);
    ByGroupIn(node.clusters, group);
    if group in ts && rules.Some? {
      PassMeans(rules.value, group, ts, e.now);
      hide Admissible;
      InvAfterPass(node, rules.value, group, ts, hist, clock, e.now, steps,
                   Min(BelowCount(ts[group], Hash(rules.value.Bound(e.now), TWO_TO_64 - 1)), COUNT_PAGE));
    } else {
    }
  }

  lemma InvAfterPass(node: Node, rules: Rules, group: bytes, ts: Tables, hist: History, clock: int, now: u64,
                     steps: nat, n: nat)
    requires Inv(node, ts, hist, clock, steps) && clock <= now && now + steps + 1 + rules.ttl < TWO_TO_64
    requires ByGroup(node.clusters, group).Some? && ByGroup(node.clusters, group).value.ttl == rules.ttl
    requires (rules.ttl != 0 || !rules.local) && group in ts && n <= |ts[group]|
    ensures Inv(node, ts[group := Swept(rules, ts[group], n, now)], hist, now, steps + 1)
  {
    hide Swept, ByGroup, FindKey, Tidy, Remembered, Printable, Rules.Doomed;
    SweptKeeps(rules, ts[group], n, now);
    var ts' := ts[group := Swept(rules, ts[group], n, now)];
    assert forall x :: x in ts[group] ==> (group, x) in hist;
    forall g, r | g in ts' && r in ts'[g] ensures (g, r) in hist {
      assert r in ts[g];
    }
    forall p | p in hist ensures Remembered(node, ts', p.0, p.1, now) {
      RememberedAfterPass(node, rules, ts, ts', group, p.0, p.1, clock, now);
    }
  }

  lemma RememberedAfterPass(node: Node, rules: Rules, ts: Tables, ts': Tables, swept: bytes, group: bytes, r: Row,
                            clock: int, now: u64)
    requires clock <= now && swept in ts && swept in ts' && ts' == ts[swept := ts'[swept]]
    requires ByGroup(node.clusters, swept).Some? && ByGroup(node.clusters, swept).value.ttl == rules.ttl
    requires Tidy(ts[swept]) && Tidy(ts'[swept]) && (rules.ttl != 0 || !rules.local)
    requires forall x :: x in ts[swept] ==> x.hash.ts + rules.ttl < TWO_TO_64
    requires forall x :: x in ts'[swept] ==> x in ts[swept]
    requires forall x :: x in ts[swept] && !rules.Doomed(x.flags, x.hash.ts, now) ==> x in ts'[swept]
    requires Remembered(node, ts, group, r, clock)
    ensures Remembered(node, ts', group, r, now)
  {
    hide FindKey, ByGroup;
    if group == swept {
      SweptRemembered(rules, ts[swept], ts'[swept], r, now);
    }
  }

  /** A row that the sweep takes away was past its time to live, and so is everything older. */
  lemma SweptRemembered(rules: Rules, t: Table, t': Table, r: Row, now: u64)
    requires Tidy(t) && Tidy(t') && (rules.ttl != 0 || !rules.local)
    requires forall x :: x in t ==> x.hash.ts + rules.ttl < TWO_TO_64
    requires forall x :: x in t' ==> x in t
    requires forall x :: x in t && !rules.Doomed(x.flags, x.hash.ts, now) ==> x in t'
    requires FindKey(t, r.key).Some? ==> r.hash.AtMost(FindKey(t, r.key).value.hash)
    ensures FindKey(t, r.key).Some? ==>
              if FindKey(t', r.key).Some? then FindKey(t', r.key) == FindKey(t, r.key)
              else rules.ttl > 0 && r.hash.ts + rules.ttl < now
    ensures FindKey(t, r.key).None? ==> FindKey(t', r.key).None?
  {
    var x, y := FindKey(t, r.key), FindKey(t', r.key);
    if y.Some? {
      TidyFind(t, y.value);
    } else if x.Some? {
      assert Matches(x.value, r.key);
      assert rules.Doomed(x.value.flags, x.value.hash.ts, now);
    }
  }

  // Lists of records, which a driver with transactions may undo.

  predicate AllPlain(objs: seq<StoreObj>, nows: seq<u64>) {
    |objs| == |nows| && forall o :: o in objs ==> Plain(o) && Fits(o)
  }

  /** The records written by a list, in order. */
  function Written(node: Node, ts: Tables, objs: seq<StoreObj>, nows: seq<u64>): seq<StoreObj>
    requires AllPlain(objs, nows)
  {
    if objs == [] then []
    else
      var k := |objs| - 1;
      var last := Apply(node, ApplyAll(node, ts, objs[..k], nows[..k]), objs[k], nows[k]).stored;
      Written(node, ts, objs[..k], nows[..k]) + (if last.Some? then [last.value] else [])
  }

  function RecordedAll(hist: History, written: seq<StoreObj>): History {
    if written == [] then hist
    else Recorded(RecordedAll(hist, written[..|written| - 1]), Some(written[|written| - 1]))
  }

  /** Each record of a list is newer than everything stored before it, earlier records of the list included. */
  ghost predicate NewestInTurn(hist: History, written: seq<StoreObj>) {
    written == [] ||
    var k := |written| - 1;
    NewestInTurn(hist, written[..k]) && Newest(RecordedAll(hist, written[..k]), written[k])
  }

  function Clock(clock: int, nows: seq<u64>): int { if nows == [] then clock else nows[|nows| - 1] }

  /** A list is admissible when each record is, in its turn. */
  ghost predicate AdmissibleList(node: Node, ts: Tables, objs: seq<StoreObj>, nows: seq<u64>, clock: int, steps: nat)
    requires AllPlain(objs, nows)
  {
    objs == [] ||
    var k := |objs| - 1;
    && AdmissibleList(node, ts, objs[..k], nows[..k], clock, steps)
    && Admissible(node, ApplyAll(node, ts, objs[..k], nows[..k]), Event(Offer(objs[k]), nows[k]),
                  Clock(clock, nows[..k]), steps + k)
  }

  lemma {:induction false} ListKeepsInv(node: Node, ts: Tables, hist: History, objs: seq<StoreObj>, nows: seq<u64>,
                                        clock: int, steps: nat)
    requires node.crypto.Sound() && Inv(node, ts, hist, clock, steps)
    requires AllPlain(objs, nows)
    requires AdmissibleList(node, ts, objs, nows, clock, steps)
    ensures var written := Written(node, ts, objs, nows);
            && NewestInTurn(hist, written) && clock <= Clock(clock, nows)
            && Inv(node, ApplyAll(node, ts, objs, nows), RecordedAll(hist, written), Clock(clock, nows), steps + |objs|)
  {
    hide Inv, Apply, Newest, Plain, Fits, Admissible, Stored, Next, RecordedAll, NewestInTurn, Recorded;
    if objs != [] {
      var k := |objs| - 1;
      assert objs[k] in objs;
      ListKeepsInv(node, ts, hist, objs[..k], nows[..k], clock, steps);
      var written, ts1 := Written(node, ts, objs[..k], nows[..k]), ApplyAll(node, ts, objs[..k], nows[..k]);
      var e, hist1, clock1 := Event(Offer(objs[k]), nows[k]), RecordedAll(hist, written), Clock(clock, nows[..k]);
      OfferKeepsInv(node, ts1, hist1, e, clock1, steps + k);
      OfferMeans(node, ts1, e, clock1, steps + k);
      var last := Stored(node, ts1, e);
      if last.Some? {
        OfferIsNewest(node, ts1, hist1, e, clock1, steps + k);
        RecordNext(hist, written, last.value);
      } else {
        RecordNothing(hist1);
        assert written + [] == written;
      }
    } else {
      RecordNone(hist);
    }
  }

  lemma RecordNext(hist: History, written: seq<StoreObj>, last: StoreObj)
    ensures RecordedAll(hist, written + [last]) == Recorded(RecordedAll(hist, written), Some(last))
    ensures NewestInTurn(hist, written + [last])
            <==> NewestInTurn(hist, written) && Newest(RecordedAll(hist, written), last)
  {
    hide Newest, Recorded;
    assert (written + [last])[..|written|] == written;
  }

  lemma RecordNone(hist: History)
    ensures RecordedAll(hist, []) == hist && NewestInTurn(hist, [])
  {
  }

  lemma RecordNothing(hist: History)
    ensures Recorded(hist, None) == hist
  {
  }

  lemma OfferMeans(node: Node, ts: Tables, e: Event, clock: int, steps: nat)
    requires e.op.Offer? && Plain(e.op.obj) && Admissible(node, ts, e, clock, steps)
    ensures Stored(node, ts, e) == Apply(node, ts, e.op.obj, e.now).stored
    ensures Next(node, ts, e) == Apply(node, ts, e.op.obj, e.now).tables && clock <= e.now
  {
  }

  lemma InvLater(node: Node, ts: Tables, hist: History, clock: int, later: int, steps: nat, more: nat)
    requires Inv(node, ts, hist, clock, steps) && clock <= later && steps <= more
    ensures Inv(node, ts, hist, later, more)
  {
    hide Tidy, Printable, ByGroup, FindKey;
  }

  /** A single event, or a list of records written together. */
  datatype Turn = One(event: Event) | List(objs: seq<StoreObj>, nows: seq<u64>) {
    predicate Plain() {
      match this
      case One(e) => e.op.Offer? ==> Consistency.Plain(e.op.obj)
      case List(objs, nows) => AllPlain(objs, nows)
    }

    function Steps(): nat { if One? then 1 else |objs| }

    function Time(clock: int): int { if One? then event.now else Clock(clock, nows) }
  }

  function After(node: Node, ts: Tables, turn: Turn): Tables
    requires turn.Plain()
  {
    match turn
    case One(e) => Next(node, ts, e)
    case List(objs, nows) => Committed(node, ts, objs, nows)
  }

  /** What becomes history: what a list wrote only if it is not undone. */
  function HistoryAfter(node: Node, ts: Tables, hist: History, turn: Turn): History
    requires turn.Plain()
  {
    match turn
    case One(e) => Recorded(hist, Stored(node, ts, e))
    case List(objs, nows) =>
      if node.transactions && |objs| > 1 && LastCode(node, ts, objs, nows) != RC_SUCCESS then hist
      else RecordedAll(hist, Written(node, ts, objs, nows))
  }

  ghost predicate SafeTurn(node: Node, ts: Tables, hist: History, turn: Turn)
    requires turn.Plain()
  {
    match turn
    case One(e) => Stored(node, ts, e).Some? ==> Newest(hist, Stored(node, ts, e).value)
    case List(objs, nows) => NewestInTurn(hist, Written(node, ts, objs, nows))
  }

  ghost predicate AdmissibleTurn(node: Node, ts: Tables, turn: Turn, clock: int, steps: nat)
    requires turn.Plain()
  {
    match turn
    case One(e) => Admissible(node, ts, e, clock, steps)
    case List(objs, nows) => AdmissibleList(node, ts, objs, nows, clock, steps)
  }

  /** Every write of the run is newest. */
  ghost predicate Safe(node: Node, ts: Tables, hist: History, run: seq<Turn>)
    requires forall turn :: turn in run ==> turn.Plain()
    decreases |run|
  {
    run == [] ||
    (&& SafeTurn(node, ts, hist, run[0])
     && Safe(node, After(node, ts, run[0]), HistoryAfter(node, ts, hist, run[0]), run[1..]))
  }

  ghost predicate AdmissibleRun(node: Node, ts: Tables, run: seq<Turn>, clock: int, steps: nat)
    requires forall turn :: turn in run ==> turn.Plain()
    decreases |run|
  {
    run == [] ||
    (&& AdmissibleTurn(node, ts, run[0], clock, steps)
     && AdmissibleRun(node, After(node, ts, run[0]), run[1..], run[0].Time(clock), steps + run[0].Steps()))
  }

  lemma TurnIsSafe(node: Node, ts: Tables, hist: History, turn: Turn, clock: int, steps: nat)
    requires node.crypto.Sound() && Inv(node, ts, hist, clock, steps)
    requires turn.Plain() && AdmissibleTurn(node, ts, turn, clock, steps)
    ensures SafeTurn(node, ts, hist, turn)
    ensures Inv(node, After(node, ts, turn), HistoryAfter(node, ts, hist, turn), turn.Time(clock), steps + turn.Steps())
  {
    hide Inv, Admissible, Stored, Next, Newest, Written, ApplyAll, LastCode, NewestInTurn, RecordedAll, AdmissibleList,
         Consistency.Plain;
    match turn
    case One(e) =>
      if e.op.Offer? {
        OfferKeepsInv(node, ts, hist, e, clock, steps);
        if Stored(node, ts, e).Some? {
          OfferIsNewest(node, ts, hist, e, clock, steps);
        }
      } else {
        CleanKeepsInv(node, ts, hist, e, clock, steps);
        CleanStoresNothing(node, ts, e);
      }
    case List(objs, nows) =>
      ListKeepsInv(node, ts, hist, objs, nows, clock, steps);
      InvLater(node, ts, hist, clock, Clock(clock, nows), steps, steps + |objs|);
  }

  /** No resurrection over every admissible run. */
  lemma {:induction false} RunIsSafe(node: Node, ts: Tables, hist: History, run: seq<Turn>, clock: int, steps: nat)
    requires node.crypto.Sound() && Inv(node, ts, hist, clock, steps)
    requires (forall turn :: turn in run ==> turn.Plain()) && AdmissibleRun(node, ts, run, clock, steps)
    ensures Safe(node, ts, hist, run)
    decreases |run|
  {
    hide Inv, AdmissibleTurn, SafeTurn, After, HistoryAfter, Turn.Plain;
    if run != [] {
      var turn := run[0];
      TurnIsSafe(node, ts, hist, turn, clock, steps);
      RunIsSafe(node, After(node, ts, turn), HistoryAfter(node, ts, hist, turn), run[1..], turn.Time(clock),
                steps + turn.Steps());
    }
  }

  lemma CleanStoresNothing(node: Node, ts: Tables, e: Event)
    requires e.op.Clean?
    ensures Stored(node, ts, e).None?
  {
  }

  /** In particular from an empty store, at any time. */
  lemma NoResurrectionFromEmpty(node: Node, run: seq<Turn>, clock: nat)
    requires node.crypto.Sound() && forall turn :: turn in run ==> turn.Plain()
    requires AdmissibleRun(node, map[], run, clock, 0)
    ensures Safe(node, map[], {}, run)
  {
    hide AdmissibleRun, Safe;
    RunIsSafe(node, map[], {}, run, clock, 0);
  }

  // Exactly when an older record comes back.

  /** The record passes every check but that of its age and those that depend on what is stored under its key. */
  ghost predicate Eligible(node: Node, ts: Tables, o: StoreObj, now: u64) {
    && Plain(o) && ByGroup(node.clusters, o.group).Some?
    && Get(TableOf(ts, o.group), HashOf(o)).None? && o.timestamp <= now
    && SignerRole(node, ByGroup(node.clusters, o.group).value, o) >= ROLE_USER
    && o.crc != 0 && o.key != [] && Printable(o.key) && Printable(o.group)
    && (o.group in ts || |o.group| <= GROUP_NAME_SIZE_MAX)
  }

  ghost predicate Welcome(node: Node, ts: Tables, o: StoreObj, now: u64) {
    Eligible(node, ts, o, now) && !Expired(ByGroup(node.clusters, o.group).value.ttl, o.timestamp, now)
  }

  /**
   A welcome record from elsewhere is stored exactly when no row answers
   to its key, or an older one that it may replace.
   */
  lemma WelcomeIsStoredIff(node: Node, ts: Tables, o: StoreObj, now: u64)
    requires Welcome(node, ts, o, now) && !IsNew(o.flags)
    ensures var y := FindKey(TableOf(ts, o.group), o.key);
            Apply(node, ts, o, now).stored.Some? <==>
            y.None? || (y.value.hash.Less(HashOf(o)) && Overrides(node, o, y.value))
    ensures Apply(node, ts, o, now).stored.Some? ==> Apply(node, ts, o, now).stored == Some(o)
  {
    hide Store, FindKey, Covers, Compare, IsNew, IsErase, IsPinned, Expired, Restamp;
    var y := FindKey(TableOf(ts, o.group), o.key);
    if y.Some? {
      CompareIsLexicographic(y.value.hash, HashOf(o));
    }
  }

  /** Of the rows that answer to a key, the one with the least hash is found. */
  lemma {:induction false} FindKeyIsFirst(t: Table, key: bytes, z: Row)
    requires Ascending(t) && z in t && Matches(z, key)
    ensures FindKey(t, key).Some? && FindKey(t, key).value.hash.AtMost(z.hash)
  {
    if !Matches(t[0], key) {
      FindKeyIsFirst(t[1..], key, z);
    }
  }

  /** What answers to the key of a row after some record was stored. */
  lemma FindAfter(t: Table, s: StoreObj, x: Row)
    requires Tidy(t) && x in t && s.crc != 0 && s.key != [] && Printable(s.key) && WellSized(s.sign)
    ensures FindKey(Store(t, s), x.key)
         == if s.key == x.key then (if Findable(s) then Some(RowOf(s)) else None)
            else if Matches(RowOf(s), x.key) && HashOf(s).AtMost(x.hash) then Some(RowOf(s))
            else if HashOf(s) == x.hash then None
            else Some(x)
  {
    hide Store, FindKey;
    var t' := Store(t, s);
    if s.key == x.key {
      StoredIsFoundIff(t, s);
    } else {
      StoreMeans(t, s);
      TidyFind(t, x);
      var y, prior := FindKey(t', x.key), FindKey(t, s.key);
      assert RowOf(s) in t';
      assert x.hash != HashOf(s) && prior.Some? ==> prior.value.key != x.key && prior.value.hash != x.hash;
      assert x.hash != HashOf(s) ==> x in t';
      assert Matches(x, x.key);
      if Matches(RowOf(s), x.key) {
        FindKeyIsFirst(t', x.key, RowOf(s));
      }
      if x in t' {
        FindKeyIsFirst(t', x.key, x);
      }
      assert y.Some? ==> y.value == RowOf(s) || y.value == x;
    }
  }

  /** How many rows one pass of the sweep reads. */
  function PageLength(rules: Rules, t: Table, now: u64): (n: nat)
    ensures n <= |t|
  {
    Min(BelowCount(t, Hash(rules.Bound(now), TWO_TO_64 - 1)), COUNT_PAGE)
  }

  /**
   Storing `s` gives up the memory of row x: a record of the same key that cannot be found replaces
   it, another key's record has the same hash, or the cut of a longer key hides it behind a row that
   `older` may replace.
   */
  ghost predicate Displaces(node: Node, s: StoreObj, x: Row, older: StoreObj) {
    if s.key == x.key then !Findable(s)
    else if Matches(RowOf(s), x.key) then HashOf(s).Less(HashOf(older)) && Overrides(node, older, RowOf(s))
    else HashOf(s) == x.hash
  }

  /** The event makes the store forget that row x keeps the older record out. */
  ghost predicate Forgets(node: Node, ts: Tables, e: Event, x: Row, older: StoreObj)
    requires e.op.Offer? ==> Plain(e.op.obj)
  {
    match e.op
    case Offer(o) => o.group == older.group && Stored(node, ts, e).Some?
      && Displaces(node, Stored(node, ts, e).value, x, older)
    case Clean(group) =>
      && group == older.group && RulesOf(node, group).Some?
      && var rules, t := RulesOf(node, group).value, TableOf(ts, group);
      && x in t[..PageLength(rules, t, e.now)] && rules.Doomed(x.flags, x.hash.ts, e.now)
  }

  lemma FindAfterOffer(node: Node, ts: Tables, e: Event, x: Row, older: StoreObj)
    requires node.crypto.Sound() && e.op.Offer? && Plain(e.op.obj)
    requires Tidy(TableOf(ts, older.group)) && x in TableOf(ts, older.group) && x.hash.ts + 1 < TWO_TO_64
    requires x.key == older.key && HashOf(older).Less(x.hash)
          && Get(TableOf(Next(node, ts, e), older.group), HashOf(older)).None?
    ensures var y := FindKey(TableOf(Next(node, ts, e), older.group), x.key);
            (y.None? || (y.value.hash.Less(HashOf(older)) && Overrides(node, older, y.value)))
              <==> Forgets(node, ts, e, x, older)
  {
    hide Apply, Store, FindKey, Overrides, Tidy, Findable;
    var o, t := e.op.obj, TableOf(ts, older.group);
    AppliedMeans(node, ts, o, e.now);
    TidyFind(t, x);
    if Stored(node, ts, e).Some? && o.group == older.group {
      var s := Stored(node, ts, e).value;
      FindAfter(t, s, x);
      AcceptedIsNewer(node, ts, o, e.now);
      StoredIsThere(t, s);
    }
  }

  lemma StoredIsThere(t: Table, s: StoreObj)
    requires Tidy(t)
    ensures Get(Store(t, s), HashOf(s)).Some?
  {
    hide Store;
    StoreMeans(t, s);
    GetMeans(Store(t, s), HashOf(s));
    assert RowOf(s) in Store(t, s);
  }

  lemma FindAfterClean(node: Node, ts: Tables, e: Event, x: Row, older: StoreObj)
    requires e.op.Clean? && Printable(older.group) && older.group in ts
    requires Tidy(ts[older.group]) && x in ts[older.group] && x.key == older.key && HashOf(older).Less(x.hash)
    ensures FindKey(TableOf(Next(node, ts, e), older.group), x.key)
         == if Forgets(node, ts, e, x, older) then None else Some(x)
  {
    hide Pass, FindKey, Tidy, Swept, BelowCount, Rules.Doomed, Covers;
    var g, t := older.group, ts[older.group];
    TidyFind(t, x);
    if e.op.group == g && RulesOf(node, g).Some? {
      var rules := RulesOf(node, g).value;
      var n := PageLength(rules, t, e.now);
      PassMeans(rules, g, ts, e.now);
      SweptMeans(rules, t, n, e.now);
      OneForKey(t, Swept(rules, t, n, e.now), x);
    } else if e.op.group in ts && RulesOf(node, e.op.group).Some? {
      PassElsewhere(RulesOf(node, e.op.group).value, e.op.group, ts, e.now, g);
    }
  }

  /** In a part of a tidy table a key is found exactly when its row is still there. */
  lemma OneForKey(t: Table, u: Table, x: Row)
    requires Tidy(t) && Tidy(u) && x in t && forall r :: r in u ==> r in t
    ensures FindKey(u, x.key) == if x in u then Some(x) else None
  {
    if x in u {
      TidyFind(u, x);
    }
  }

  lemma EraseElsewhere(ts: Tables, o: StoreObj, other: bytes)
    requires other != o.group || HashOf(o) == BLANK
    ensures TableOf(DriverApply(ts, AsErase(o)).1, other) == TableOf(ts, other)
  {
    hide Get, FindKey, Del, Store;
  }

  lemma {:induction false} SweepElsewhere(rules: Rules, ts: Tables, objs: seq<StoreObj>, now: u64, other: bytes)
    requires forall o :: o in objs ==> other != o.group || HashOf(o) == BLANK
    ensures TableOf(SweepObjs(rules, ts, objs, now), other) == TableOf(ts, other)
  {
    hide DriverApply, AsErase, Rules.Doomed, TableOf;
    if objs != [] {
      var k := |objs| - 1;
      SweepElsewhere(rules, ts, objs[..k], now, other);
      EraseElsewhere(SweepObjs(rules, ts, objs[..k], now), objs[k], other);
    }
  }

  /** A sweep of one group leaves the other groups alone. */
  lemma PassElsewhere(rules: Rules, group: bytes, ts: Tables, now: u64, other: bytes)
    requires other != group
    ensures TableOf(Pass(rules, group, ts, now), other) == TableOf(ts, other)
  {
    SweepElsewhere(rules, ts, BelowPage(group, TableOf(ts, group), rules.Bound(now), COUNT_PAGE), now, other);
  }

  /**
   The exact theorem, for one event: after it a welcome older record of a key is stored exactly when
   the event made the store forget the newer row.
   */
  lemma ReturnsIff(node: Node, ts: Tables, e: Event, x: Row, older: StoreObj, now: u64)
    requires node.crypto.Sound() && (e.op.Offer? ==> Plain(e.op.obj))
    requires Tidy(TableOf(ts, older.group)) && x in TableOf(ts, older.group) && x.hash.ts + 1 < TWO_TO_64
    requires x.key == older.key && HashOf(older).Less(x.hash) && !IsNew(older.flags)
    requires Welcome(node, Next(node, ts, e), older, now)
    ensures Apply(node, Next(node, ts, e), older, now).stored.Some? <==> Forgets(node, ts, e, x, older)
  {
    hide Apply, FindKey, Forgets, Tidy, Next, IsNew;
    WelcomeIsStoredIff(node, Next(node, ts, e), older, now);
    if e.op.Offer? {
      FindAfterOffer(node, ts, e, x, older);
    } else {
      FindAfterClean(node, ts, e, x, older);
    }
  }

  // What the theorem says of the single assumptions.

  /**
   After a record was accepted, an older welcome one of its key is stored
   exactly when the first cannot be found again.
   */
  lemma UnfindableReturnsIff(node: Node, ts: Tables, newer: StoreObj, older: StoreObj, before: u64, now: u64)
    requires node.crypto.Sound() && Plain(newer) && Keyed(TableOf(ts, newer.group))
    requires Apply(node, ts, newer, before).stored == Some(newer)
    requires newer.group == older.group && newer.key == older.key && HashOf(older).Less(HashOf(newer))
          && !IsNew(older.flags)
    requires Welcome(node, Apply(node, ts, newer, before).tables, older, now)
    ensures Apply(node, Apply(node, ts, newer, before).tables, older, now).stored.Some? <==> !Findable(newer)
  {
    hide Store, FindKey, Apply, Keyed, IsNew;
    AppliedMeans(node, ts, newer, before);
    StoredIsFoundIff(TableOf(ts, newer.group), newer);
    WelcomeIsStoredIff(node, Apply(node, ts, newer, before).tables, older, now);
  }

  /** The rule takes every welcome record with a key above 511 bytes, whatever is stored and however old it is. */
  lemma LongKeyIsAlwaysStored(node: Node, ts: Tables, o: StoreObj, now: u64)
    requires ValidTable(TableOf(ts, o.group)) && Welcome(node, ts, o, now) && !IsNew(o.flags)
          && |o.key| > STORED_KEY_MAX
    ensures Apply(node, ts, o, now).stored == Some(o)
  {
    hide Apply, Welcome, IsNew, FindKey;
    WelcomeIsStoredIff(node, ts, o, now);
    LongKeyIsNotFound(TableOf(ts, o.group), o.key);
  }

  lemma {:induction false} LongKeyIsNotFound(t: Table, key: bytes)
    requires (forall r :: r in t ==> WellKept(r)) && |key| > STORED_KEY_MAX
    ensures FindKey(t, key) == None
  {
    if t != [] {
      assert t[0] in t && WellKept(t[0]);
      LongKeyIsNotFound(t[1..], key);
    }
  }

  /**
   Without time to live, a sweep lets older records of a row's key back in
   exactly when it reads the tombstone of a local group.
   */
  lemma LocalSweepReturnsIff(node: Node, ts: Tables, x: Row, older: StoreObj, sweepTime: u64, now: u64)
    requires var g := older.group; Tidy(TableOf(ts, g)) && RulesOf(node, g).Some? && RulesOf(node, g).value.ttl == 0
    requires node.crypto.Sound() && x in TableOf(ts, older.group) && x.hash.ts + 1 < TWO_TO_64
    requires x.key == older.key && HashOf(older).Less(x.hash) && !IsNew(older.flags)
    requires Welcome(node, Next(node, ts, Event(Clean(older.group), sweepTime)), older, now)
    ensures var t, rules := TableOf(ts, older.group), RulesOf(node, older.group).value;
            Apply(node, Next(node, ts, Event(Clean(older.group), sweepTime)), older, now).stored.Some?
            <==> rules.local && IsDel(x.flags) && !IsPinned(x.flags) && x in t[..PageLength(rules, t, sweepTime)]
  {
    hide Apply, Welcome, Tidy, Next, IsNew, IsDel, IsPinned, PageLength, Covers;
    ReturnsIff(node, ts, Event(Clean(older.group), sweepTime), x, older, now);
  }

  /**
   With a time to live, an older record of a swept key is stored exactly while it is not expired
   itself, and that is over when the sweep runs: it takes a clock that goes back.
   */
  lemma ClockBackIff(node: Node, ts: Tables, x: Row, older: StoreObj, sweepTime: u64, now: u64)
    requires node.crypto.Sound() && Tidy(TableOf(ts, older.group)) && x in TableOf(ts, older.group)
          && x.hash.ts + 1 < TWO_TO_64
    requires x.key == older.key && HashOf(older).Less(x.hash) && !IsNew(older.flags)
    requires var e := Event(Clean(older.group), sweepTime);
             Forgets(node, ts, e, x, older) && Eligible(node, Next(node, ts, e), older, now)
    requires var ttl := RulesOf(node, older.group).value.ttl; ttl > 0 && x.hash.ts + ttl < TWO_TO_64
    ensures var ttl := RulesOf(node, older.group).value.ttl;
            && (Apply(node, Next(node, ts, Event(Clean(older.group), sweepTime)), older, now).stored.Some?
                <==> now <= older.timestamp + ttl)
            && (now <= older.timestamp + ttl ==> now < sweepTime)
  {
    hide Apply, Tidy, Next, IsNew, IsPinned, PageLength, Covers;
    var ts' := Next(node, ts, Event(Clean(older.group), sweepTime));
    if Expired(RulesOf(node, older.group).value.ttl, older.timestamp, now) {
      AcceptedIsFresh(node, ts', older, now);
    } else {
      ReturnsIff(node, ts, Event(Clean(older.group), sweepTime), x, older, now);
    }
  }
}
