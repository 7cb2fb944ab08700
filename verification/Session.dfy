/**
 A whole session of the synchronisation channel, opened by a START packet from A to B: B's reader
 sends pages to A, and when it ends on an empty page it asks for A's hashes with a GROUP_REQUEST,
 which A's reader answers page by page.
 */
module Session {
  import opened Bytes
  import opened DriverHash
  import opened MdbxTable
  import opened MdbxDriver
  import opened GlobalDb
  import opened Sweep
  import opened SyncReader
  import opened SyncProtocol
  import opened Merging
  import opened Channel

  // What is under way.

  /** The post brings the row to the node `to`. */
  ghost predicate Carries(pair: Pair, all: set<Row>, post: Post, to: bool, r: Row) {
    match post.mail
    case Reader(from, _) => post.to == to && from.Less(r.hash)
    case GroupRequest => post.to != to
    case Hashes(hs) => post.to == to && r.hash in hs
    case Request(hs) => post.to == to && r.hash in hs
    case Records(pack) => post.to == to && exists rows :: Holds(pair.group, all, pack, rows) && r in rows
  }

  ghost predicate Pending(pair: Pair, all: set<Row>, net: seq<Post>, to: bool, r: Row) {
    exists post :: post in net && Carries(pair, all, post, to, r)
  }

  /** Each row of `rows` is covered at the node `to`, or under way to it, if that node has no transactions. */
  ghost predicate Supplied(pair: Pair, all: set<Row>, s: State, to: bool, rows: Table) {
    !pair.At(to).transactions ==>
    forall r :: r in rows ==> Dominated(TableAt(pair, s, to), r) || Pending(pair, all, s.net, to, r)
  }

  /** A row on its way is covered once its post is delivered, or is on its way with the reply. */
  lemma ReplyCarries(pair: Pair, all: set<Row>, tA: Table, tB: Table, s: State, post: Post,
                     now: u64, to: bool, r: Row)
    requires PairOk(pair, all) && Core(pair, all, tA, tB, s) && post in s.net && Timely(pair, all, now)
    requires Tidy(Start(!to, tA, tB)) && r in Start(!to, tA, tB) && r in all && Carries(pair, all, post, to, r)
          && !post.mail.Records?
    ensures Dominated(TableAt(pair, s, to), r) || Pending(pair, all, Reply(pair, s, post, now), to, r)
  {
    hide Peaceful, PackRows, Dominated, TurnOf, HashPage, Tidy, Carries, SideInv;
    AtSide(pair, all, tA, tB, s, to);
    AtSide(pair, all, tA, tB, s, !to);
    assert InFlight(pair, all, s, post);
    var mine, source := TableAt(pair, s, to), TableAt(pair, s, !to);
    if r !in source {
      GoneIsCovered(Start(!to, tA, tB), source, mine, all, r);
    }
    match post.mail
    case Reader(from, answering) => ReaderCarries(pair, all, tA, tB, s, post, now, to, r);
    case GroupRequest => RequestCarries(pair, all, s, post, now, to, r);
    case Hashes(hs) => HashesCarry(pair, all, tA, tB, s, post, now, to, r);
    case Request(hs) => AnswerCarries(pair, all, tA, tB, s, post, now, to, r);
  }

  lemma RequestCarries(pair: Pair, all: set<Row>, s: State, post: Post, now: u64, to: bool, r: Row)
    requires PairOk(pair, all) && post.mail.GroupRequest? && Carries(pair, all, post, to, r) && r in all
    ensures Pending(pair, all, Reply(pair, s, post, now), to, r)
  {
    hide Peaceful;
    var next := Post(!post.to, Reader(BLANK, true));
    assert BLANK.Less(r.hash);
    assert next in Reply(pair, s, post, now) && Carries(pair, all, next, to, r);
  }

  lemma ReaderCarries(pair: Pair, all: set<Row>, tA: Table, tB: Table, s: State, post: Post,
                      now: u64, to: bool, r: Row)
    requires PairOk(pair, all) && Core(pair, all, tA, tB, s) && post in s.net && Timely(pair, all, now)
    requires post.mail.Reader? && Carries(pair, all, post, to, r)
    ensures r in TableAt(pair, s, !to) ==> Pending(pair, all, Reply(pair, s, post, now), to, r)
  {
    hide Peaceful, Dominated, TurnOf, HashPage, Tidy;
    AtSide(pair, all, tA, tB, s, !to);
    var source := TableAt(pair, s, !to);
    ReadsTable(pair, all, source, !to, post.mail.from, post.mail.answering, now);
    var turn := TurnOf(HashPage(source, post.mail.from, KEYS_PAGE), post.mail.from, post.mail.answering,
                       pair.Ttl(!to), now);
    var sent, again := Post(to, Hashes(turn.sent)), Post(to, Reader(turn.lastHash, post.mail.answering));
    assert turn.sent != [] ==> sent in Reply(pair, s, post, now);
    assert turn.again ==> again in Reply(pair, s, post, now);
    assert r.hash in turn.sent ==> Carries(pair, all, sent, to, r);
    assert turn.lastHash.Less(r.hash) ==> Carries(pair, all, again, to, r);
  }

  lemma HashesCarry(pair: Pair, all: set<Row>, tA: Table, tB: Table, s: State, post: Post,
                    now: u64, to: bool, r: Row)
    requires PairOk(pair, all) && Core(pair, all, tA, tB, s) && r in all && post.mail.Hashes?
          && Carries(pair, all, post, to, r)
    ensures Dominated(TableAt(pair, s, to), r) || Pending(pair, all, Reply(pair, s, post, now), to, r)
  {
    hide Dominated, Peaceful, SideInv, Tidy;
    AtSide(pair, all, tA, tB, s, to);
    PeacefulDistinct(pair.At(to), pair.group, all);
    var t, hs := TableAt(pair, s, to), post.mail.hs;
    SideAscends(Start(to, tA, tB), t, TableAt(pair, s, !to), all);
    MissingMeans(t, hs, r.hash);
    GetMeans(t, r.hash);
    if Get(t, r.hash).Some? {
      SideWithin(Start(to, tA, tB), t, TableAt(pair, s, !to), all, Get(t, r.hash).value);
      assert Get(t, r.hash).value == r;
      SelfCovered(t, r);
    } else {
      var next := Post(to, Request(Missing(t, hs)));
      assert next in Reply(pair, s, post, now) && Carries(pair, all, next, to, r);
    }
  }

  lemma AnswerCarries(pair: Pair, all: set<Row>, tA: Table, tB: Table, s: State, post: Post,
                      now: u64, to: bool, r: Row)
    requires PairOk(pair, all) && Core(pair, all, tA, tB, s) && post in s.net && post.mail.Request?
          && Carries(pair, all, post, to, r)
    ensures r in TableAt(pair, s, !to) ==> Pending(pair, all, Reply(pair, s, post, now), to, r)
  {
    hide Dominated, Peaceful, SideInv, PackRows, Tidy;
    AtSide(pair, all, tA, tB, s, !to);
    assert InFlight(pair, all, s, post);
    var source, hs := TableAt(pair, s, !to), post.mail.hs;
    SideAscends(Start(!to, tA, tB), source, TableAt(pair, s, to), all);
    var rows := FoundRows(source, hs);
    forall x | x in rows ensures x in all {
      FoundRowsMeans(source, hs, x);
      SideWithin(Start(!to, tA, tB), source, TableAt(pair, s, to), all, x);
    }
    FoundRowsMeans(source, hs, r);
    if r in source {
      var next := Post(to, Records(PackRows(pair.group, rows)));
      assert Holds(pair.group, all, PackRows(pair.group, rows), rows);
      assert next in Reply(pair, s, post, now) && Carries(pair, all, next, to, r);
    }
  }

  /** Nothing on its way is lost by a delivery. */
  lemma SuppliedStep(pair: Pair, all: set<Row>, tA: Table, tB: Table, s: State, i: nat, now: u64,
                     nows: seq<u64>, s': State, to: bool)
    requires PairOk(pair, all) && Core(pair, all, tA, tB, s) && Deliver(pair, s, i, now, nows, s')
    requires Timely(pair, all, now) && forall n :: n in nows ==> Timely(pair, all, n)
    requires Tidy(Start(!to, tA, tB)) && (forall r :: r in Start(!to, tA, tB) ==> r in all)
    requires Supplied(pair, all, s, to, Start(!to, tA, tB))
    ensures Supplied(pair, all, s', to, Start(!to, tA, tB))
  {
    hide SideInv, Reply, Dominated, PairOk, Timely, InFlight, Tidy, Core, Effect, Carries;
    var post := s.net[i];
    CoreStep(pair, all, tA, tB, s, i, now, nows, s');
    TablesStep(pair, all, tA, tB, s, post, nows, s');
    if post.mail.Records? {
      CarriesTo(pair, all, post);
    }
    forall r | r in Start(!to, tA, tB) && !pair.At(to).transactions
      ensures Dominated(TableAt(pair, s', to), r) || Pending(pair, all, s'.net, to, r)
    {
      if !Dominated(TableAt(pair, s, to), r) {
        var p :| p in s.net && Carries(pair, all, p, to, r);
        if p != post {
          assert p in s'.net;
        } else if !post.mail.Records? {
          ReplyCarries(pair, all, tA, tB, s, post, now, to, r);
        }
      }
    }
  }

  lemma CarriesTo(pair: Pair, all: set<Row>, post: Post)
    requires post.mail.Records?
    ensures forall to, r :: Carries(pair, all, post, to, r) ==>
              to == post.to && exists rows :: Holds(pair.group, all, post.mail.pack, rows) && r in rows
  {
  }

  // The two phases of a session: before and after the end of the first reader.

  predicate IsStart(post: Post) { post.mail.Reader? && !post.mail.answering }

  function StartCount(net: seq<Post>): nat {
    if net == [] then 0 else (if IsStart(net[0]) then 1 else 0) + StartCount(net[1..])
  }

  lemma {:induction false} StartSplit(a: seq<Post>, b: seq<Post>)
    ensures StartCount(a + b) == StartCount(a) + StartCount(b)
  {
    if a == [] {
      assert a + b == b;
    } else {
      StartSplit(a[1..], b);
      assert (a + b)[1..] == a[1..] + b;
    }
  }

  lemma StartAfter(net: seq<Post>, i: nat, reply: seq<Post>)
    requires i < |net|
    ensures StartCount(net[..i] + net[i + 1..] + reply) == StartCount(net) - StartCount([net[i]]) + StartCount(reply)
  {
    hide StartCount;
    var a, b := net[..i], net[i + 1..];
    StartSplit(a + b, reply);
    StartSplit(a, b);
    StartSplit(a + [net[i]], b);
    StartSplit(a, [net[i]]);
    assert net == (a + [net[i]]) + b;
  }

  lemma {:induction false} SomeStart(net: seq<Post>)
    ensures StartCount(net) == 0 <==> forall p :: p in net ==> !IsStart(p)
  {
    if net != [] {
      SomeStart(net[1..]);
      assert forall p :: p in net <==> p == net[0] || p in net[1..];
    }
  }

  /** B has not been changed, and nothing on its way could change it. */
  ghost predicate Untouched(pair: Pair, tB: Table, s: State) {
    TableAt(pair, s, false) == tB && forall post :: post in s.net ==> post.to && !post.mail.GroupRequest?
  }

  /** The first reader ends on an empty page. */
  predicate Asks(tB: Table, from: Hash) { |Above(tB, from)| % KEYS_PAGE == 0 }

  ghost predicate Phase(pair: Pair, all: set<Row>, tA: Table, tB: Table, from: Hash, s: State) {
    && StartCount(s.net) <= 1
    && if StartCount(s.net) == 1
       then Untouched(pair, tB, s)
         && forall post :: post in s.net && IsStart(post) ==> Asks(tB, post.mail.from) == Asks(tB, from)
       else if Asks(tB, from) then Supplied(pair, all, s, false, tA)
       else Untouched(pair, tB, s)
  }

  lemma AnswersAskNothing(page: seq<Hash>, from: Hash, ttl: u64, now: u64)
    ensures !TurnOf(page, from, true, ttl, now).groupRequest
  {
  }

  /** What the replies to posts other than the first reader can be. */
  lemma PlainReply(pair: Pair, s: State, post: Post, now: u64)
    requires !IsStart(post)
    ensures forall p :: p in Reply(pair, s, post, now) ==> !IsStart(p) && !p.mail.GroupRequest?
    ensures !post.mail.GroupRequest? ==> forall p :: p in Reply(pair, s, post, now) ==> p.to == post.to
    ensures StartCount(Reply(pair, s, post, now)) == 0 && StartCount([post]) == 0
  {
    hide Answer, Missing, HashPage, TurnOf, StartCount;
    if post.mail.Reader? {
      AnswersAskNothing(HashPage(TableAt(pair, s, !post.to), post.mail.from, KEYS_PAGE), post.mail.from,
                        pair.Ttl(!post.to), now);
    }
    SomeStart(Reply(pair, s, post, now));
    SomeStart([post]);
  }

  /** The replies to the first reader: another turn of it, or a GROUP_REQUEST exactly when it ends on an empty page. */
  lemma StartReply(pair: Pair, all: set<Row>, tB: Table, s: State, post: Post, now: u64)
    requires PairOk(pair, all) && Timely(pair, all, now) && IsStart(post) && post.to
    requires TableAt(pair, s, false) == tB && Within(tB, all)
    ensures var reply, again := Reply(pair, s, post, now), |Above(tB, post.mail.from)| >= KEYS_PAGE;
            && (forall p :: p in reply ==> p.to && (p.mail.GroupRequest? ==> Above(tB, post.mail.from) == []))
            && (forall p :: p in reply && IsStart(p) ==> Asks(tB, p.mail.from) == Asks(tB, post.mail.from))
            && StartCount(reply) == (if again then 1 else 0) && StartCount([post]) == 1
            && (Above(tB, post.mail.from) == [] ==> Post(true, GroupRequest) in reply)
  {
    hide HashPage, TurnOf, Above, Peaceful, Within, StartCount, PairOk, Timely;
    ReadsTable(pair, all, tB, false, post.mail.from, false, now);
    var turn := TurnOf(HashPage(tB, post.mail.from, KEYS_PAGE), post.mail.from, false, pair.Ttl(false), now);
    var a := if turn.sent == [] then [] else [Post(true, Hashes(turn.sent))];
    var b := if turn.again then [Post(true, Reader(turn.lastHash, false))] else [];
    var c := if turn.groupRequest then [Post(true, GroupRequest)] else [];
    assert Reply(pair, s, post, now) == a + b + c;
    StartParts(a, b, c);
    StartOne(post);
    assert forall p :: p in a + b + c <==> p in a || p in b || p in c;
  }

  lemma StartOne(post: Post)
    ensures StartCount([post]) == if IsStart(post) then 1 else 0
  {
    assert [post][1..] == [];
  }

  lemma StartParts(a: seq<Post>, b: seq<Post>, c: seq<Post>)
    requires (forall p :: p in a + c ==> !IsStart(p)) && |b| <= 1 && forall p :: p in b ==> IsStart(p)
    ensures StartCount(a + b + c) == |b|
  {
    hide StartCount;
    StartSplit(a + b, c);
    StartSplit(a, b);
    SomeStart(a);
    SomeStart(b);
    SomeStart(c);
    if b != [] {
      StartOne(b[0]);
      assert b == [b[0]];
    }
  }

  lemma PhaseStep(pair: Pair, all: set<Row>, tA: Table, tB: Table, from: Hash, s: State, i: nat,
                  now: u64, nows: seq<u64>, s': State)
    requires PairOk(pair, all) && Core(pair, all, tA, tB, s) && Deliver(pair, s, i, now, nows, s')
    requires Timely(pair, all, now) && forall n :: n in nows ==> Timely(pair, all, n)
    requires Within(tA, all) && Within(tB, all) && Phase(pair, all, tA, tB, from, s)
    ensures Phase(pair, all, tA, tB, from, s')
  {
    hide Reply, Dominated, PairOk, Timely, InFlight, Tidy, Core, Carries, StartCount, Above;
    var post := s.net[i];
    var reply := Reply(pair, s, post, now);
    StartAfter(s.net, i, reply);
    SomeStart(s.net);
    assert forall p :: p in s'.net ==> p in s.net || p in reply;
    if IsStart(post) {
      StartDelivered(pair, all, tA, tB, from, s, i, now, nows, s');
    } else {
      PlainReply(pair, s, post, now);
      if StartCount(s.net) == 0 && Asks(tB, from) {
        SuppliedStep(pair, all, tA, tB, s, i, now, nows, s', false);
      }
    }
  }

  lemma StartDelivered(pair: Pair, all: set<Row>, tA: Table, tB: Table, from: Hash, s: State,
                       i: nat, now: u64, nows: seq<u64>, s': State)
    requires PairOk(pair, all) && Deliver(pair, s, i, now, nows, s') && IsStart(s.net[i]) && StartCount(s.net) == 1
    requires Timely(pair, all, now) && Within(tB, all) && Phase(pair, all, tA, tB, from, s)
    ensures Phase(pair, all, tA, tB, from, s')
  {
    hide Reply, Dominated, PairOk, Timely, Tidy, StartCount, Above;
    var post := s.net[i];
    var reply := Reply(pair, s, post, now);
    StartAfter(s.net, i, reply);
    StartReply(pair, all, tB, s, post, now);
    assert forall p :: p in s'.net ==> p in s.net || p in reply;
    assert Asks(tB, post.mail.from) == Asks(tB, from);
    if Above(tB, post.mail.from) == [] {
      forall r | r in tA ensures Pending(pair, all, s'.net, false, r) {
        assert Post(true, GroupRequest) in s'.net && Carries(pair, all, Post(true, GroupRequest), false, r);
      }
    }
  }

  // The whole session.

  ghost predicate Inv(pair: Pair, all: set<Row>, tA: Table, tB: Table, from: Hash, s: State) {
    && Core(pair, all, tA, tB, s) && Supplied(pair, all, s, true, tB) && Phase(pair, all, tA, tB, from, s)
  }

  lemma StepKeepsInv(pair: Pair, all: set<Row>, tA: Table, tB: Table, from: Hash, s: State,
                     s': State)
    requires PairOk(pair, all) && Within(tA, all) && Within(tB, all) && Inv(pair, all, tA, tB, from, s)
          && Step(pair, all, s, s')
    ensures Inv(pair, all, tA, tB, from, s')
  {
    hide PairOk, Core, Supplied, Phase, Deliver, Timely;
    var i, now, nows :| Deliver(pair, s, i, now, nows, s') && Timely(pair, all, now)
      && forall n :: n in nows ==> Timely(pair, all, n);
    CoreStep(pair, all, tA, tB, s, i, now, nows, s');
    SuppliedStep(pair, all, tA, tB, s, i, now, nows, s', true);
    PhaseStep(pair, all, tA, tB, from, s, i, now, nows, s');
  }

  lemma {:induction false} RunKeepsInv(pair: Pair, all: set<Row>, tA: Table, tB: Table,
                                       from: Hash, states: seq<State>)
    requires PairOk(pair, all) && Within(tA, all) && Within(tB, all) && Run(pair, all, states)
          && Inv(pair, all, tA, tB, from, states[0])
    ensures Inv(pair, all, tA, tB, from, Final(states))
  {
    hide PairOk, Inv, Step, Within;
    if |states| > 1 {
      var k := |states| - 1;
      assert states[..k][k - 1] == states[k - 1];
      RunKeepsInv(pair, all, tA, tB, from, states[..k]);
      StepKeepsInv(pair, all, tA, tB, from, states[k - 1], states[k]);
    }
  }

  /** A START packet reached B, whose reader is queued; A already covers what it does not ask for. */
  ghost predicate Opened(pair: Pair, from: Hash, s: State) {
    && s.net == [Post(true, Reader(from, false))]
    && forall r :: r in TableAt(pair, s, false) ==> from.Less(r.hash) || Dominated(TableAt(pair, s, true), r)
  }

  lemma OpenedInv(pair: Pair, all: set<Row>, from: Hash, s: State)
    requires Opened(pair, from, s) && Within(TableAt(pair, s, true), all) && Within(TableAt(pair, s, false), all)
    ensures Inv(pair, all, TableAt(pair, s, true), TableAt(pair, s, false), from, s)
  {
    hide Within, Dominated;
    var post := Post(true, Reader(from, false));
    assert StartCount(s.net) == 1 + StartCount([]);
    forall r | r in TableAt(pair, s, false) && from.Less(r.hash) ensures Pending(pair, all, s.net, true, r) {
      assert post in s.net && Carries(pair, all, post, true, r);
    }
  }

  /** When nothing is under way any more, everything supplied is covered. */
  lemma SettledCovers(pair: Pair, all: set<Row>, s: State, to: bool, rows: Table)
    requires Supplied(pair, all, s, to, rows) && s.net == [] && !pair.At(to).transactions
    ensures forall r :: r in rows ==> Dominated(TableAt(pair, s, to), r)
  {
    hide Dominated, Carries;
  }

  lemma CoversAll(t0: Table, t: Table, other: Table, all: set<Row>, peer: Table)
    requires SideInv(t0, t, other, all) && all == Rows(t0) + Rows(peer) && Distinct(all)
    requires forall r :: r in peer ==> Dominated(t, r)
    ensures Newest(t, all) && forall r :: r in all ==> Dominated(t, r)
  {
    hide Dominated, Newest, Tidy;
    forall r | r in all ensures Dominated(t, r) {
      if r in t0 {
        SelfCovered(t0, r);
      }
    }
    MergeIsNewest(t, all);
  }

  /**
   However the posts are interleaved, a session that has run to its end leaves A, if it writes
   without transactions, with the newest record of each key. If B does so too, both nodes are then
   equal exactly when the rows of B above the start are a multiple of the page size, so that B asks
   back, or B lacked nothing in the first place.
   */
  lemma SessionEqualIff(pair: Pair, all: set<Row>, from: Hash, states: seq<State>)
    requires states != [] && Run(pair, all, states) && Opened(pair, from, states[0]) && Final(states).net == []
    requires Tidy(TableAt(pair, states[0], true)) && Tidy(TableAt(pair, states[0], false)) && PairOk(pair, all)
    requires all == Rows(TableAt(pair, states[0], true)) + Rows(TableAt(pair, states[0], false))
    ensures var tA, tB := TableAt(pair, states[0], true), TableAt(pair, states[0], false);
            var a, b := TableAt(pair, Final(states), true), TableAt(pair, Final(states), false);
            && (!pair.a.transactions ==> Newest(a, all))
            && (!pair.a.transactions && (Asks(tB, from) ==> !pair.b.transactions) ==>
                 (a == b <==> Asks(tB, from) || forall r :: r in tA ==> Dominated(tB, r)))
  {
    hide Run, Opened, PairOk, Tidy, Newest, Dominated, Supplied, SideInv, Above, StartCount, InFlight;
    var tA, tB, s := TableAt(pair, states[0], true), TableAt(pair, states[0], false), Final(states);
    var a, b := TableAt(pair, s, true), TableAt(pair, s, false);
    OpenedInv(pair, all, from, states[0]);
    RunKeepsInv(pair, all, tA, tB, from, states);
    DistinctPair(pair, all);
    if !pair.a.transactions {
      SettledCovers(pair, all, s, true, tB);
      CoversAll(tA, a, b, all, tB);
      SomeStart(s.net);
      if !Asks(tB, from) {
        assert b == tB;
        EqualMeansCovered(tA, tB, a, all);
      } else if !pair.b.transactions {
        SettledCovers(pair, all, s, false, tA);
        CoversAll(tB, b, a, all, tA);
        NewestIsUnique(a, b, all);
      }
    }
  }

  lemma DistinctPair(pair: Pair, all: set<Row>)
    requires PairOk(pair, all)
    ensures Distinct(all)
  {
    hide Peaceful;
    PeacefulDistinct(pair.a, pair.group, all);
  }

  /** A table is the newest of both exactly when it covers the other one. */
  lemma EqualMeansCovered(tA: Table, tB: Table, a: Table, all: set<Row>)
    requires Tidy(tB) && all == Rows(tA) + Rows(tB) && Distinct(all) && Newest(a, all)
          && forall r :: r in tA ==> Dominated(a, r)
    ensures a == tB <==> forall r :: r in tA ==> Dominated(tB, r)
  {
    hide Dominated, Newest, Tidy;
    if forall r :: r in tA ==> Dominated(tB, r) {
      forall r | r in all ensures Dominated(tB, r) {
        if r in tB {
          SelfCovered(tB, r);
        }
      }
      MergeIsNewest(tB, all);
      NewestIsUnique(a, tB, all);
    }
  }
}
