/**
 The synchronisation channel between two nodes A and B for one group: readers, packets under way
 in any order, and the tables of both nodes, which change while packets are delivered.
 */
module Channel {
  import opened Bytes
  import opened DriverHash
  import opened PacketPack
  import opened MdbxTable
  import opened MdbxDriver
  import opened GlobalDb
  import opened Sweep
  import opened SyncReader
  import opened SyncProtocol
  import opened Merging

  datatype Mail =
    | Reader(from: Hash, answering: bool)
    | GroupRequest
    | Hashes(hs: seq<Hash>)
    | Request(hs: seq<Hash>)
    | Records(pack: Pack)

  /** A job or packet on the way of records to the node `to`: true is A, false is B. */
  datatype Post = Post(to: bool, mail: Mail)

  datatype Pair = Pair(a: Node, b: Node, group: bytes) {
    function At(side: bool): Node { if side then a else b }

    function Ttl(side: bool): u64 {
      var cl := ByGroup(At(side).clusters, group);
      if cl.Some? then cl.value.ttl else 0
    }
  }

  datatype State = State(a: Tables, b: Tables, net: seq<Post>) {
    function At(side: bool): Tables { if side then a else b }
  }

  function TableAt(pair: Pair, s: State, side: bool): Table { TableOf(s.At(side), pair.group) }

  /** What the delivery of a post sends, or queues again, in return. */
  function Reply(pair: Pair, s: State, post: Post, now: u64): seq<Post> {
    var puller, source := TableAt(pair, s, post.to), TableAt(pair, s, !post.to);
    match post.mail
    case Reader(from, answering) =>
      var turn := TurnOf(HashPage(source, from, KEYS_PAGE), from, answering, pair.Ttl(!post.to), now);
      (if turn.sent == [] then [] else [Post(post.to, Hashes(turn.sent))])
      + (if turn.again then [Post(post.to, Reader(turn.lastHash, answering))] else [])
      + (if turn.groupRequest then [Post(post.to, GroupRequest)] else [])
    case GroupRequest => [Post(!post.to, Reader(BLANK, true))]
    case Hashes(hs) =>
      var missing := Missing(puller, hs);
      if missing == [] then [] else [Post(post.to, Request(missing))]
    case Request(hs) =>
      var answer := Answer(pair.group, source, hs);
      if answer.None? then [] else [Post(post.to, Records(answer.value))]
    case Records(_) => []
  }

  ghost predicate Effect(pair: Pair, s: State, post: Post, nows: seq<u64>, s': State) {
    && s'.At(!post.to) == s.At(!post.to)
    && if post.mail.Records? && UnpackOf(post.mail.pack).Delivered?
       then |nows| == |UnpackOf(post.mail.pack).objs|
            && s'.At(post.to) == AfterRecords(pair.At(post.to), s.At(post.to), UnpackOf(post.mail.pack).objs, true,
                                              nows)
       else s'.At(post.to) == s.At(post.to)
  }

  /** Anything under way may be next. */
  ghost predicate Deliver(pair: Pair, s: State, i: nat, now: u64, nows: seq<u64>, s': State) {
    && i < |s.net| && Effect(pair, s, s.net[i], nows, s')
    && s'.net == s.net[..i] + s.net[i + 1..] + Reply(pair, s, s.net[i], now)
  }

  /** All records in play may be exchanged, and neither node finds one too old or too new. */
  ghost predicate PairOk(pair: Pair, all: set<Row>) {
    && Peaceful(pair.a, pair.group, all) && Peaceful(pair.b, pair.group, all)
    && (forall r :: r in all ==> r.hash != BLANK)
    && (forall side, r :: r in all ==> r.hash.ts + pair.Ttl(side) < TWO_TO_64)
  }

  ghost predicate Timely(pair: Pair, all: set<Row>, now: u64) {
    forall side :: FreshAt(pair.At(side), pair.group, all, now)
  }

  ghost predicate Step(pair: Pair, all: set<Row>, s: State, s': State) {
    exists i, now, nows :: Deliver(pair, s, i, now, nows, s') && Timely(pair, all, now)
        && forall n :: n in nows ==> Timely(pair, all, n)
  }

  ghost predicate Run(pair: Pair, all: set<Row>, states: seq<State>) {
    states != [] && forall k :: 0 < k < |states| ==> Step(pair, all, states[k - 1], states[k])
  }

  function Final(states: seq<State>): State
    requires states != []
  {
    states[|states| - 1]
  }

  // What is under way.

  ghost predicate Holds(group: bytes, all: set<Row>, pack: Pack, rows: Table) {
    1 <= |rows| <= KEYS_PAGE && pack == PackRows(group, rows) && forall r :: r in rows ==> r in all
  }

  ghost predicate InFlight(pair: Pair, all: set<Row>, s: State, post: Post) {
    match post.mail
    case Reader(_, _) => true
    case GroupRequest => true
    case Hashes(hs) => |hs| <= KEYS_PAGE
    case Request(hs) => |hs| <= KEYS_PAGE
    case Records(pack) =>
      exists rows :: Holds(pair.group, all, pack, rows)
          && forall r :: r in rows ==> Dominated(TableAt(pair, s, !post.to), r)
  }

  /**
   A table of the session: records in play, nothing forgotten, and every
   row that is new here covered by the other side.
   */
  ghost predicate SideInv(t0: Table, t: Table, other: Table, all: set<Row>) {
    && Within(t, all) && (forall y :: Dominated(t0, y) ==> Dominated(t, y))
    && (forall y :: y in t ==> y in t0 || Dominated(other, y))
  }

  ghost predicate Core(pair: Pair, all: set<Row>, tA: Table, tB: Table, s: State) {
    && SideInv(tA, TableAt(pair, s, true), TableAt(pair, s, false), all)
    && SideInv(tB, TableAt(pair, s, false), TableAt(pair, s, true), all)
    && (forall post :: post in s.net ==> InFlight(pair, all, s, post))
  }

  function Start(side: bool, tA: Table, tB: Table): Table { if side then tA else tB }

  /** A row that left its table was replaced by one that the other side covers. */
  lemma GoneIsCovered(t0: Table, t: Table, other: Table, all: set<Row>, r: Row)
    requires Tidy(t0) && SideInv(t0, t, other, all) && r in t0 && r !in t
    ensures Dominated(other, r)
  {
    assert r.key == r.key && r.hash.AtMost(r.hash);
    assert Dominated(t0, r);
    var y :| y in t && y.key == r.key && r.hash.AtMost(y.hash);
    assert y !in t0;
    var z :| z in other && z.key == y.key && y.hash.AtMost(z.hash);
    assert z.key == r.key && r.hash.AtMost(z.hash);
  }

  /** One turn of a reader, when nothing is expired. */
  lemma ReaderTurn(t: Table, from: Hash, answering: bool, ttl: u64, now: u64)
    requires Ascending(t) && InRange(ttl, t) && forall r :: r in t ==> !Expired(ttl, r.hash.ts, now)
    ensures var turn := TurnOf(HashPage(t, from, KEYS_PAGE), from, answering, ttl, now);
            && |turn.sent| <= KEYS_PAGE
            && (forall r :: r in t && from.Less(r.hash) ==>
                 r.hash in turn.sent || (turn.again && turn.lastHash.Less(r.hash)))
            && (turn.again ==>
                 |Above(t, from)| >= KEYS_PAGE && |Above(t, turn.lastHash)| == |Above(t, from)| - KEYS_PAGE)
            && (turn.groupRequest <==> Above(t, from) == [] && !answering)
            && (turn.again <==> |Above(t, from)| >= KEYS_PAGE)
  {
    hide TurnOf, HashPage, Above, Unexpired, Expired;
    var rows, turn := Above(t, from), TurnOf(HashPage(t, from, KEYS_PAGE), from, answering, ttl, now);
    TurnMeans(t, from, answering, ttl, now);
    AboveIsSuffix(t, from);
    var page := PageRows(t, from);
    assert forall r :: r in page ==> r in rows;
    assert Ascending(page);
    UnexpiredMeans(ttl, now, page);
    UnexpiredShorter(ttl, now, page);
    if turn.again {
      AboveIsSuffix(t, turn.lastHash);
      assert rows == rows[..KEYS_PAGE] + rows[KEYS_PAGE..];
    }
    forall r | r in t && from.Less(r.hash) ensures r.hash in turn.sent || (turn.again && turn.lastHash.Less(r.hash)) {
      assert r in rows;
      if r !in page {
        assert turn.again && r in rows[KEYS_PAGE..];
      }
    }
  }

  lemma {:induction false} FoundRowsMeans(t: Table, hs: seq<Hash>, r: Row)
    requires Ascending(t)
    ensures r in FoundRows(t, hs) <==> r in t && r.hash in hs
  {
    if hs != [] {
      var k := |hs| - 1;
      FoundRowsMeans(t, hs[..k], r);
      GetMeans(t, hs[k]);
      assert r.hash in hs <==> r.hash in hs[..k] || r.hash == hs[k];
    }
  }

  // What every delivery keeps.

  lemma AtSide(pair: Pair, all: set<Row>, tA: Table, tB: Table, s: State, side: bool)
    requires PairOk(pair, all) && Core(pair, all, tA, tB, s)
    ensures SideInv(Start(side, tA, tB), TableAt(pair, s, side), TableAt(pair, s, !side), all)
         && Peaceful(pair.At(side), pair.group, all)
  {
    hide SideInv, Peaceful;
  }

  /** What a pack does to the table it is applied to. */
  lemma JoinKeepsSide(t0: Table, t: Table, other: Table, all: set<Row>,
                      rows: Table, t': Table)
    requires SideInv(t0, t, other, all) && JoinedAll(t, rows, t')
          && forall r :: r in rows ==> r in all && Dominated(other, r)
    ensures SideInv(t0, t', other, all) && forall y :: Dominated(t, y) ==> Dominated(t', y)
  {
    hide Dominated, Tidy;
  }

  lemma OtherSide(t0: Table, t: Table, other: Table, all: set<Row>,
                  other': Table)
    requires SideInv(t0, t, other, all) && forall y :: Dominated(other, y) ==> Dominated(other', y)
    ensures SideInv(t0, t, other', all)
  {
    hide Dominated, Tidy;
  }

  /**
   A delivery changes at most the table it is for, which forgets nothing and, without transactions,
   covers what a pack carried.
   */
  lemma TablesStep(pair: Pair, all: set<Row>, tA: Table, tB: Table, s: State, post: Post,
                   nows: seq<u64>, s': State)
    requires PairOk(pair, all) && Core(pair, all, tA, tB, s) && post in s.net && Effect(pair, s, post, nows, s')
    requires forall n :: n in nows ==> Timely(pair, all, n)
    ensures forall y :: Dominated(TableAt(pair, s, post.to), y) ==> Dominated(TableAt(pair, s', post.to), y)
    ensures SideInv(Start(post.to, tA, tB), TableAt(pair, s', post.to), TableAt(pair, s', !post.to), all)
    ensures SideInv(Start(!post.to, tA, tB), TableAt(pair, s', !post.to), TableAt(pair, s', post.to), all)
    ensures post.mail.Records? && !pair.At(post.to).transactions ==>
              forall r, rows :: Holds(pair.group, all, post.mail.pack, rows) && r in rows ==>
                Dominated(TableAt(pair, s', post.to), r)
  {
    hide SideInv, Peaceful, UnpackOf, PackRows, AfterRecords, JoinedAll, Dominated, FreshAt, Within;
    var to, group := post.to, pair.group;
    AtSide(pair, all, tA, tB, s, to);
    AtSide(pair, all, tA, tB, s, !to);
    assert InFlight(pair, all, s, post);
    if post.mail.Records? {
      var rows :| Holds(group, all, post.mail.pack, rows)
        && forall r :: r in rows ==> Dominated(TableAt(pair, s, !to), r);
      PackStep(pair, all, Start(to, tA, tB), s, post, nows, s', rows);
      if s'.At(to) != s.At(to) {
        JoinKeepsSide(Start(to, tA, tB), TableAt(pair, s, to), TableAt(pair, s, !to), all, rows, TableAt(pair, s', to));
        OtherSide(Start(!to, tA, tB), TableAt(pair, s, !to), TableAt(pair, s, to), all, TableAt(pair, s', to));
      }
      if !pair.At(to).transactions {
        forall r, rows' | Holds(group, all, post.mail.pack, rows') && r in rows'
          ensures Dominated(TableAt(pair, s', to), r)
        {
          PackStep(pair, all, Start(to, tA, tB), s, post, nows, s', rows');
          JoinedCovers(TableAt(pair, s, to), rows', TableAt(pair, s', to), r);
        }
      }
    }
  }

  lemma JoinedCovers(t: Table, rows: Table, t': Table, r: Row)
    requires JoinedAll(t, rows, t') && r in rows
    ensures Dominated(t', r)
  {
    hide Dominated, Tidy;
  }

  lemma PackStep(pair: Pair, all: set<Row>, t0: Table, s: State, post: Post, nows: seq<u64>, s': State,
                 rows: Table)
    requires Peaceful(pair.At(post.to), pair.group, all) && post.mail.Records? && Effect(pair, s, post, nows, s')
    requires SideInv(t0, TableAt(pair, s, post.to), TableAt(pair, s, !post.to), all)
          && Holds(pair.group, all, post.mail.pack, rows)
    requires forall n :: n in nows ==> Timely(pair, all, n)
    ensures UnpackOf(post.mail.pack).Delivered?
    ensures || (pair.At(post.to).transactions && s'.At(post.to) == s.At(post.to))
            || JoinedAll(TableAt(pair, s, post.to), rows, TableAt(pair, s', post.to))
  {
    hide Peaceful, UnpackOf, PackRows, AfterRecords, JoinedAll, Dominated, FreshAt, Tidy;
    PackDelivers(pair.At(post.to), pair.group, all, post.mail.pack, rows);
    assert forall n :: n in nows ==> FreshAt(pair.At(post.to), pair.group, all, n);
    PackJoins(pair.At(post.to), pair.group, all, s.At(post.to), post.mail.pack, rows, nows);
  }

  /** One turn of a reader over a table of the session. */
  lemma ReadsTable(pair: Pair, all: set<Row>, t: Table, side: bool, from: Hash, answering: bool, now: u64)
    requires PairOk(pair, all) && Within(t, all) && Timely(pair, all, now)
    ensures var turn := TurnOf(HashPage(t, from, KEYS_PAGE), from, answering, pair.Ttl(side), now);
            && |turn.sent| <= KEYS_PAGE
            && (forall r :: r in t && from.Less(r.hash) ==>
                 r.hash in turn.sent || (turn.again && turn.lastHash.Less(r.hash)))
            && (turn.again ==>
                 |Above(t, from)| >= KEYS_PAGE && |Above(t, turn.lastHash)| == |Above(t, from)| - KEYS_PAGE)
            && (turn.groupRequest <==> Above(t, from) == [] && !answering)
            && (turn.again <==> |Above(t, from)| >= KEYS_PAGE)
  {
    hide Peaceful, TurnOf, HashPage, Above, Expired;
    assert FreshAt(pair.At(side), pair.group, all, now);
    ReaderTurn(t, from, answering, pair.Ttl(side), now);
  }

  /** Replies are in order. */
  lemma ReplyInFlight(pair: Pair, all: set<Row>, tA: Table, tB: Table, s: State, post: Post,
                      now: u64, s': State)
    requires PairOk(pair, all) && Core(pair, all, tA, tB, s) && post in s.net && Timely(pair, all, now)
    requires TableAt(pair, s', !post.to) == TableAt(pair, s, !post.to)
    ensures forall p :: p in Reply(pair, s, post, now) ==> InFlight(pair, all, s', p)
  {
    hide Peaceful, PackRows, Dominated, TurnOf, HashPage, Tidy;
    AtSide(pair, all, tA, tB, s, !post.to);
    assert InFlight(pair, all, s, post);
    var source := TableAt(pair, s, !post.to);
    if post.mail.Reader? {
      ReadsTable(pair, all, source, !post.to, post.mail.from, post.mail.answering, now);
    } else if post.mail.Request? {
      var rows := FoundRows(source, post.mail.hs);
      SideAscends(Start(!post.to, tA, tB), source, TableAt(pair, s, post.to), all);
      forall r | r in rows ensures r in all && Dominated(source, r) {
        FoundRowsMeans(source, post.mail.hs, r);
        SelfCovered(source, r);
      }
      assert rows != [] ==> Holds(pair.group, all, PackRows(pair.group, rows), rows);
    }
  }

  lemma SideAscends(t0: Table, t: Table, other: Table, all: set<Row>)
    requires SideInv(t0, t, other, all)
    ensures Ascending(t)
  {
  }

  lemma SideWithin(t0: Table, t: Table, other: Table, all: set<Row>, x: Row)
    requires SideInv(t0, t, other, all) && x in t
    ensures x in all
  {
    hide Dominated, Tidy;
  }

  lemma CoreStep(pair: Pair, all: set<Row>, tA: Table, tB: Table, s: State, i: nat, now: u64,
                 nows: seq<u64>, s': State)
    requires PairOk(pair, all) && Core(pair, all, tA, tB, s) && Deliver(pair, s, i, now, nows, s')
    requires Timely(pair, all, now) && forall n :: n in nows ==> Timely(pair, all, n)
    ensures Core(pair, all, tA, tB, s')
    ensures forall side, y :: Dominated(TableAt(pair, s, side), y) ==> Dominated(TableAt(pair, s', side), y)
  {
    hide SideInv, Reply, Dominated, PairOk, Timely, InFlight;
    var post := s.net[i];
    TablesStep(pair, all, tA, tB, s, post, nows, s');
    ReplyInFlight(pair, all, tA, tB, s, post, now, s');
    assert TableAt(pair, s', !post.to) == TableAt(pair, s, !post.to);
    forall side, y | Dominated(TableAt(pair, s, side), y) ensures Dominated(TableAt(pair, s', side), y) {
      assert side == post.to || side == !post.to;
    }
    hide Effect;
    forall p | p in s'.net ensures InFlight(pair, all, s', p) {
      if p !in Reply(pair, s, post, now) {
        assert p in s.net;
        InFlightStays(pair, all, s, s', p);
      }
    }
  }

  lemma InFlightStays(pair: Pair, all: set<Row>, s: State, s': State, p: Post)
    requires InFlight(pair, all, s, p)
    requires forall side, y :: Dominated(TableAt(pair, s, side), y) ==> Dominated(TableAt(pair, s', side), y)
    ensures InFlight(pair, all, s', p)
  {
    hide Dominated, Holds;
  }

  // Every run ends.

  function Beyond(all: set<Row>, from: Hash): set<Row> { set r | r in all && from.Less(r.hash) }

  function Weight(all: set<Row>, post: Post): nat {
    match post.mail
    case Reader(from, answering) => 4 + 8 * |Beyond(all, from)| + (if answering then 0 else 5 + 8 * |all|)
    case GroupRequest => 5 + 8 * |all|
    case Hashes(_) => 3
    case Request(_) => 2
    case Records(_) => 1
  }

  function Load(all: set<Row>, net: seq<Post>): nat {
    if net == [] then 0 else Weight(all, net[0]) + Load(all, net[1..])
  }

  lemma {:induction false} LoadSplit(all: set<Row>, a: seq<Post>, b: seq<Post>)
    ensures Load(all, a + b) == Load(all, a) + Load(all, b)
  {
    hide Weight;
    if a == [] {
      assert a + b == b;
    } else {
      LoadSplit(all, a[1..], b);
      assert (a + b)[1..] == a[1..] + b;
    }
  }

  lemma LoadOne(all: set<Row>, post: Post)
    ensures Load(all, [post]) == Weight(all, post) && Load(all, []) == 0
  {
    assert [post][1..] == [];
  }

  /** The rows beyond a later hash are fewer. */
  lemma BeyondShrinks(t: Table, all: set<Row>, from: Hash, last: Hash)
    requires Within(t, all) && |Above(t, last)| < |Above(t, from)|
    ensures |Beyond(all, last)| < |Beyond(all, from)|
  {
    hide Above;
    AboveIsSuffix(t, from);
    AboveIsSuffix(t, last);
    var k := |t| - |Above(t, from)|;
    var r := t[k];
    assert r == Above(t, from)[0] && r in Above(t, from);
    assert forall j :: |t| - |Above(t, last)| <= j < |t| ==> t[k].hash.Less(t[j].hash);
    assert r !in Above(t, last);
    assert from.Less(r.hash) && !last.Less(r.hash);
    assert Beyond(all, last) <= Beyond(all, from) - {r};
    SubsetSize(Beyond(all, last), Beyond(all, from) - {r});
  }

  lemma ReplyIsLighter(pair: Pair, all: set<Row>, s: State, post: Post, now: u64)
    requires PairOk(pair, all) && Within(TableAt(pair, s, !post.to), all) && Timely(pair, all, now)
    ensures Load(all, Reply(pair, s, post, now)) < Weight(all, post)
  {
    hide Peaceful, TurnOf, HashPage, Answer, Missing, Above, Load, Within;
    forall p ensures Load(all, [p]) == Weight(all, p) && Load(all, []) == 0 {
      LoadOne(all, p);
    }
    if post.mail.Reader? {
      var source, from := TableAt(pair, s, !post.to), post.mail.from;
      ReadsTable(pair, all, source, !post.to, from, post.mail.answering, now);
      var turn := TurnOf(HashPage(source, from, KEYS_PAGE), from, post.mail.answering, pair.Ttl(!post.to), now);
      var a := if turn.sent == [] then [] else [Post(post.to, Hashes(turn.sent))];
      var b := if turn.again then [Post(post.to, Reader(turn.lastHash, post.mail.answering))] else [];
      var c := if turn.groupRequest then [Post(post.to, GroupRequest)] else [];
      LoadSplit(all, a + b, c);
      LoadSplit(all, a, b);
      if turn.again {
        BeyondShrinks(source, all, from, turn.lastHash);
      } else {
        EmptySends(source, from, post.mail.answering, pair.Ttl(!post.to), now);
      }
    } else if post.mail.GroupRequest? {
      SubsetSize(Beyond(all, BLANK), all);
    }
  }

  /** Nothing is sent with a GROUP_REQUEST. */
  lemma EmptySends(t: Table, from: Hash, answering: bool, ttl: u64, now: u64)
    ensures TurnOf(HashPage(t, from, KEYS_PAGE), from, answering, ttl, now).groupRequest ==>
              TurnOf(HashPage(t, from, KEYS_PAGE), from, answering, ttl, now).sent == []
  {
    hide HashPage, TrimCount;
  }

  /** Every delivery makes what is under way lighter, so every session ends. */
  lemma DeliverShrinks(pair: Pair, all: set<Row>, s: State, i: nat, now: u64, nows: seq<u64>, s': State)
    requires PairOk(pair, all) && Deliver(pair, s, i, now, nows, s') && Timely(pair, all, now)
    requires Within(TableAt(pair, s, true), all) && Within(TableAt(pair, s, false), all)
    ensures Load(all, s'.net) < Load(all, s.net)
  {
    hide Effect, Reply, Load, Weight, PairOk, Within, Timely;
    var a, b, post := s.net[..i], s.net[i + 1..], s.net[i];
    assert s.net == (a + [post]) + b;
    LoadSplit(all, a + [post], b);
    LoadSplit(all, a, [post]);
    LoadSplit(all, a + b, Reply(pair, s, post, now));
    LoadSplit(all, a, b);
    LoadOne(all, post);
    ReplyIsLighter(pair, all, s, post, now);
  }

  lemma CoreWithin(pair: Pair, all: set<Row>, tA: Table, tB: Table, s: State)
    requires Core(pair, all, tA, tB, s)
    ensures Within(TableAt(pair, s, true), all) && Within(TableAt(pair, s, false), all)
  {
    hide Within, Dominated;
  }

  /** From every state of a session some run delivers everything. */
  lemma {:induction false} CanEnd(pair: Pair, all: set<Row>, tA: Table, tB: Table, s: State,
                                  now: u64)
    returns (states: seq<State>)
    requires PairOk(pair, all) && Core(pair, all, tA, tB, s) && Timely(pair, all, now)
    ensures Run(pair, all, states) && states[0] == s && Final(states).net == []
    decreases Load(all, s.net)
  {
    hide PairOk, Within, Core, Timely, AfterRecords, UnpackOf, Load, Reply;
    if s.net == [] {
      return [s];
    }
    var s', nows := DeliverFirst(pair, s, now);
    assert Step(pair, all, s, s');
    CoreWithin(pair, all, tA, tB, s);
    CoreStep(pair, all, tA, tB, s, 0, now, nows, s');
    DeliverShrinks(pair, all, s, 0, now, nows, s');
    var rest := CanEnd(pair, all, tA, tB, s', now);
    states := [s] + rest;
    forall k | 0 < k < |states| ensures Step(pair, all, states[k - 1], states[k]) {
      if k > 1 {
        assert Step(pair, all, rest[k - 2], rest[k - 1]);
      }
    }
  }

  lemma DeliverFirst(pair: Pair, s: State, now: u64) returns (s': State, nows: seq<u64>)
    requires s.net != []
    ensures Deliver(pair, s, 0, now, nows, s') && forall n :: n in nows ==> n == now
  {
    hide AfterRecords, UnpackOf, Reply;
    var post := s.net[0];
    var net := s.net[..0] + s.net[1..] + Reply(pair, s, post, now);
    nows := [];
    s' := State(s.a, s.b, net);
    if post.mail.Records? && UnpackOf(post.mail.pack).Delivered? {
      var objs := UnpackOf(post.mail.pack).objs;
      nows := seq(|objs|, _ => now);
      var ts := AfterRecords(pair.At(post.to), s.At(post.to), objs, true, nows);
      s' := if post.to then State(ts, s.b, net) else State(s.a, ts, net);
    }
  }
}
