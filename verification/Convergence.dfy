/**
 Convergence of two nodes. A pull is a run of the channel in which one reader of the peer B sends its
 pages to A, and nothing goes the other way. What A holds in the end is determined page by page, over
 drivers with and without transactions.
 */
module Convergence {
  import opened Bytes
  import opened DriverHash
  import opened Packet
  import opened PacketPack
  import opened MdbxTable
  import opened MdbxDriver
  import opened StoredTransport
  import opened GlobalDb
  import opened Sweep
  import opened SyncReader
  import opened SyncProtocol
  import opened Merging
  import opened Channel

  // Pages, and what A lacks of them.

  function Least(a: nat, b: nat): nat { if a < b then a else b }

  /** Page j of the rows to be sent. */
  function Page(rows: Table, j: nat): Table
    requires j * KEYS_PAGE <= |rows|
  {
    rows[j * KEYS_PAGE..Least((j + 1) * KEYS_PAGE, |rows|)]
  }

  /** The rows of a page that the table does not hold. */
  function Lacking(t: Table, page: Table): (m: Table)
    ensures |m| <= |page|
  {
    if page == [] then []
    else
      var k := |page| - 1;
      if Get(t, page[k].hash).None? then Lacking(t, page[..k]) + [page[k]] else Lacking(t, page[..k])
  }

  lemma {:induction false} LackingMeans(t: Table, page: Table, r: Row)
    ensures r in Lacking(t, page) <==> r in page && Get(t, r.hash).None?
  {
    if page != [] {
      var k := |page| - 1;
      LackingMeans(t, page[..k], r);
      assert r in page <==> r in page[..k] || r == page[k];
    }
  }

  lemma {:induction false} LackingOneOfEach(t: Table, page: Table)
    requires OneOfEach(page)
    ensures OneOfEach(Lacking(t, page))
  {
    if page != [] {
      var k := |page| - 1;
      assert OneOfEach(page[..k]);
      LackingOneOfEach(t, page[..k]);
      forall i | 0 <= i < |Lacking(t, page[..k])| ensures Lacking(t, page[..k])[i].key != page[k].key {
        LackingMeans(t, page[..k], Lacking(t, page[..k])[i]);
      }
    }
  }

  /** What A finds missing of an announced page. */
  lemma {:induction false} MissingIsLacking(t: Table, u: Table, page: Table)
    requires forall r :: r in page ==> (Get(t, r.hash).None? <==> Get(u, r.hash).None?)
    ensures Missing(t, MdbxDriver.Hashes(page)) == MdbxDriver.Hashes(Lacking(u, page))
  {
    hide Get;
    if page != [] {
      var k := |page| - 1;
      assert page[k] in page;
      MissingIsLacking(t, u, page[..k]);
      assert MdbxDriver.Hashes(page)[..k] == MdbxDriver.Hashes(page[..k]);
    }
  }

  /** The request for the rows of a table is answered with those rows. */
  lemma {:induction false} FoundIsAsked(t: Table, m: Table)
    requires Ascending(t) && forall r :: r in m ==> r in t
    ensures FoundRows(t, MdbxDriver.Hashes(m)) == m
  {
    if m != [] {
      var k := |m| - 1;
      FoundIsAsked(t, m[..k]);
      GetMeans(t, m[k].hash);
      assert m[k] in t;
      assert MdbxDriver.Hashes(m)[..k] == MdbxDriver.Hashes(m[..k]);
    }
  }

  // The course of a pull.

  /** How far a page has come. */
  datatype Stage = Announced | Requested | Sent | Done

  /** The stages of the pages read so far, and where the reader stands, if it has not ended. */
  datatype Progress = Progress(stages: seq<Stage>, reader: Option<Hash>)

  /** What is under way for a page that is not done. */
  function StagePost(group: bytes, tA: Table, page: Table, stage: Stage): Post {
    match stage
    case Announced => Post(true, Hashes(MdbxDriver.Hashes(page)))
    case Requested => Post(true, Request(MdbxDriver.Hashes(Lacking(tA, page))))
    case _ => Post(true, Records(PackRows(group, Lacking(tA, page))))
  }

  function PostOf(group: bytes, tA: Table, page: Table, stage: Stage): multiset<Post> {
    if stage.Done? then multiset{} else multiset{StagePost(group, tA, page, stage)}
  }

  ghost predicate Paged(rows: Table, n: nat) {
    n == 0 || (n - 1) * KEYS_PAGE < |rows|
  }

  function Posts(group: bytes, tA: Table, rows: Table, stages: seq<Stage>): multiset<Post>
    requires Paged(rows, |stages|)
  {
    if stages == [] then multiset{}
    else
      var k := |stages| - 1;
      Posts(group, tA, rows, stages[..k]) + PostOf(group, tA, Page(rows, k), stages[k])
  }

  lemma {:induction false} StageOf(group: bytes, tA: Table, rows: Table, stages: seq<Stage>, post: Post)
    returns (j: nat)
    requires Paged(rows, |stages|) && post in Posts(group, tA, rows, stages)
    ensures j < |stages| && !stages[j].Done? && post == StagePost(group, tA, Page(rows, j), stages[j])
  {
    hide StagePost;
    var k := |stages| - 1;
    if post in Posts(group, tA, rows, stages[..k]) {
      j := StageOf(group, tA, rows, stages[..k], post);
    } else {
      j := k;
      assert post in PostOf(group, tA, Page(rows, k), stages[k]);
    }
  }

  lemma {:induction false} StageMoves(group: bytes, tA: Table, rows: Table, stages: seq<Stage>, j: nat, x: Stage)
    requires Paged(rows, |stages|) && j < |stages|
    ensures var page := Page(rows, j);
            Posts(group, tA, rows, stages[j := x]) + PostOf(group, tA, page, stages[j])
            == Posts(group, tA, rows, stages) + PostOf(group, tA, page, x)
  {
    hide PostOf;
    var k := |stages| - 1;
    if j < k {
      StageMoves(group, tA, rows, stages[..k], j, x);
      assert stages[j := x][..k] == stages[..k][j := x];
      var last := PostOf(group, tA, Page(rows, k), stages[k]);
      var u, v := Posts(group, tA, rows, stages[..k][j := x]), Posts(group, tA, rows, stages[..k]);
      var a, b := PostOf(group, tA, Page(rows, j), stages[j]), PostOf(group, tA, Page(rows, j), x);
      assert (u + last) + a == (u + a) + last == (v + last) + b;
    } else {
      assert stages[j := x][..k] == stages[..k];
    }
  }

  /** The row that A finds under the key of a row of the page, at a stage of the page. */
  ghost function Outcome(node: Node, tA: Table, page: Table, stage: Stage, r: Row): Option<Row> {
    if stage.Done? && Commits(node, tA, Lacking(tA, page)) && !Dominated(tA, r) then Some(r) else FindKey(tA, r.key)
  }

  /** What A finds under the key of row i. */
  ghost function Found(node: Node, tA: Table, rows: Table, stages: seq<Stage>, i: nat): Option<Row>
    requires i < |rows|
  {
    var j := i / KEYS_PAGE;
    if j < |stages| then Outcome(node, tA, Page(rows, j), stages[j], rows[i]) else FindKey(tA, rows[i].key)
  }

  /** A knows of every row as much as the stage of its page says. */
  ghost predicate Known(node: Node, t: Table, tA: Table, rows: Table, stages: seq<Stage>) {
    forall i :: 0 <= i < |rows| ==> FindKey(t, rows[i].key) == Found(node, tA, rows, stages, i)
  }

  /** Only rows that A lacks are requested. */
  ghost predicate Asked(tA: Table, rows: Table, stages: seq<Stage>)
    requires Paged(rows, |stages|)
  {
    forall j :: 0 <= j < |stages| && (stages[j].Requested? || stages[j].Sent?) ==> Lacking(tA, Page(rows, j)) != []
  }

  function ReaderPost(reader: Option<Hash>, answering: bool): multiset<Post> {
    if reader.Some? then multiset{Post(true, Reader(reader.value, answering))} else multiset{}
  }

  /** Where the reader stands: behind the pages read. */
  ghost predicate At(tB: Table, rows: Table, p: Progress) {
    var n := |p.stages| * KEYS_PAGE;
    if p.reader.Some? then n <= |rows| && Above(tB, p.reader.value) == rows[n..] else |rows| <= n
  }

  /** B stands still, A knows what the stages say, and what they say is under way. */
  ghost predicate Course(pair: Pair, all: set<Row>, tA: Table, tB: Table, rows: Table, answering: bool, s: State,
                         p: Progress) {
    && TableAt(pair, s, false) == tB && Within(TableAt(pair, s, true), all)
    && Paged(rows, |p.stages|) && Asked(tA, rows, p.stages) && At(tB, rows, p)
    && Known(pair.a, TableAt(pair, s, true), tA, rows, p.stages)
    && multiset(s.net) == Posts(pair.group, tA, rows, p.stages) + ReaderPost(p.reader, answering)
  }

  // Each delivery.

  lemma NetAfter(net: seq<Post>, i: nat, reply: seq<Post>)
    requires i < |net|
    ensures multiset(net[..i] + net[i + 1..] + reply) + multiset{net[i]} == multiset(net) + multiset(reply)
  {
    assert net == net[..i] + [net[i]] + net[i + 1..];
  }

  /** The rows of B that are sent: in order, records in play, one for each key. */
  lemma RowsOf(tB: Table, from: Hash, all: set<Row>)
    requires Within(tB, all)
    ensures var rows := Above(tB, from);
            && Ascending(rows) && OneOfEach(rows)
            && forall r :: r in rows <==> r in tB && from.Less(r.hash)
  {
    hide Above;
    AboveIsSuffix(tB, from);
    var rows := Above(tB, from);
    forall i, j | 0 <= i < j < |rows| ensures rows[i].key != rows[j].key {
      assert rows[i] in tB && rows[j] in tB && rows[i].hash.Less(rows[j].hash);
    }
  }

  /** A page of such rows. */
  lemma PageOf(rows: Table, j: nat, all: set<Row>)
    requires j * KEYS_PAGE < |rows| && OneOfEach(rows) && forall r :: r in rows ==> r in all
    ensures var page := Page(rows, j);
            && 1 <= |page| <= KEYS_PAGE && OneOfEach(page) && (forall r :: r in page ==> r in rows && r in all)
            && (forall i :: 0 <= i < |rows| ==> (i / KEYS_PAGE == j <==> rows[i] in page))
  {
    var page, k := Page(rows, j), j * KEYS_PAGE;
    assert forall x :: 0 <= x < |page| ==> page[x] == rows[k + x];
    forall i | 0 <= i < |rows| ensures i / KEYS_PAGE == j <==> rows[i] in page {
      if i / KEYS_PAGE == j {
        assert rows[i] == page[i - k];
      }
      if rows[i] in page {
        var x :| 0 <= x < |page| && page[x] == rows[i];
        assert rows[k + x].key == rows[i].key;
      }
    }
  }

  /** A tidy table holds a record in play exactly when the key of the record leads to it. */
  lemma HeldIsFound(t: Table, all: set<Row>, r: Row)
    requires Within(t, all) && Distinct(all) && r in all
    ensures Get(t, r.hash).Some? <==> FindKey(t, r.key) == Some(r)
  {
    hide Get, FindKey;
    GetMeans(t, r.hash);
    if r in t {
      TidyFind(t, r);
    }
    FoundIsIn(t, r.key);
  }

  /** Moving a page on without touching the table. */
  lemma FoundStays(node: Node, tA: Table, rows: Table, stages: seq<Stage>, j: nat, x: Stage, i: nat)
    requires j < |stages| && j * KEYS_PAGE < |rows| && OneOfEach(rows) && i < |rows| && !stages[j].Done?
    requires x.Done? ==> forall r :: r in Page(rows, j) ==> Dominated(tA, r)
    ensures Found(node, tA, rows, stages[j := x], i) == Found(node, tA, rows, stages, i)
  {
    hide Dominated, Commits, FindKey, Lacking;
    PageOf(rows, j, set r | r in rows);
  }

  /** A page moves on by a delivery that leaves the tables as they are. */
  lemma PageMoves(pair: Pair, all: set<Row>, tA: Table, tB: Table, rows: Table, answering: bool, s: State, p: Progress,
                  i: nat, s': State, j: nat, x: Stage, reply: seq<Post>)
    requires Course(pair, all, tA, tB, rows, answering, s, p) && OneOfEach(rows) && i < |s.net| && j < |p.stages|
    requires forall side :: TableAt(pair, s', side) == TableAt(pair, s, side)
    requires s'.net == s.net[..i] + s.net[i + 1..] + reply
    requires !p.stages[j].Done? && PostOf(pair.group, tA, Page(rows, j), p.stages[j]) == multiset{s.net[i]}
    requires PostOf(pair.group, tA, Page(rows, j), x) == multiset(reply)
    requires x.Done? ==> forall r :: r in Page(rows, j) ==> Dominated(tA, r)
    requires x.Requested? || x.Sent? ==> Lacking(tA, Page(rows, j)) != []
    ensures Course(pair, all, tA, tB, rows, answering, s', p.(stages := p.stages[j := x]))
  {
    hide Found, PostOf, Within, Dominated, Lacking, Posts, ReaderPost, Above, FindKey;
    NetAfter(s.net, i, reply);
    StageMoves(pair.group, tA, rows, p.stages, j, x);
    forall k | 0 <= k < |rows|
      ensures Found(pair.a, tA, rows, p.stages[j := x], k) == Found(pair.a, tA, rows, p.stages, k)
    {
      FoundStays(pair.a, tA, rows, p.stages, j, x, k);
    }
    NetMoves(multiset(s'.net), multiset(s.net), Posts(pair.group, tA, rows, p.stages),
             Posts(pair.group, tA, rows, p.stages[j := x]), ReaderPost(p.reader, answering), multiset{s.net[i]},
             multiset(reply));
  }

  lemma NetMoves(net': multiset<Post>, net: multiset<Post>, posts: multiset<Post>, posts': multiset<Post>,
                 reader: multiset<Post>, was: multiset<Post>, next: multiset<Post>)
    requires net' + was == net + next && posts' + was == posts + next && net == posts + reader
    ensures net' == posts' + reader
  {
    assert net' + was == (posts + reader) + next == (posts + next) + reader == (posts' + was) + reader
        == (posts' + reader) + was;
    assert net' == (net' + was) - was;
    assert (posts' + reader) == ((posts' + reader) + was) - was;
  }

  /** The announcement of a page is answered with a request for what A lacks of it. */
  lemma HashesStep(pair: Pair, all: set<Row>, tA: Table, tB: Table, rows: Table, answering: bool, s: State, p: Progress,
                   i: nat, now: u64, nows: seq<u64>, s': State, j: nat) returns (p': Progress)
    requires Course(pair, all, tA, tB, rows, answering, s, p) && OneOfEach(rows) && Deliver(pair, s, i, now, nows, s')
    requires Within(tA, all) && Distinct(all) && forall r :: r in rows ==> r in all
    requires j < |p.stages| && p.stages[j].Announced?
          && s.net[i] == Post(true, Hashes(MdbxDriver.Hashes(Page(rows, j))))
    ensures Course(pair, all, tA, tB, rows, answering, s', p')
  {
    hide Found, Within, Dominated, Posts, FindKey, Get, Above, Lacking, MdbxDriver.Hashes;
    var page, t := Page(rows, j), TableAt(pair, s, true);
    PageOf(rows, j, all);
    forall r | r in page ensures Get(t, r.hash).None? <==> Get(tA, r.hash).None? {
      var k :| 0 <= k < |rows| && rows[k] == r;
      StillThere(pair.a, t, tA, rows, p.stages, j, k);
      HeldIsFound(t, all, r);
      HeldIsFound(tA, all, r);
    }
    MissingIsLacking(t, tA, page);
    var m := Lacking(tA, page);
    NoHashes(m);
    if m == [] {
      forall r | r in page ensures Dominated(tA, r) {
        LackingMeans(tA, page, r);
        HeldIsFound(tA, all, r);
        FoundIsIn(tA, r.key);
        SelfCovered(tA, r);
      }
    }
    var x := if m == [] then Done else Requested;
    p' := p.(stages := p.stages[j := x]);
    var reply := Reply(pair, s, s.net[i], now);
    PageMoves(pair, all, tA, tB, rows, answering, s, p, i, s', j, x, reply);
  }

  lemma NoHashes(m: Table)
    ensures MdbxDriver.Hashes(m) == [] <==> m == []
  {
  }

  lemma StillThere(node: Node, t: Table, tA: Table, rows: Table, stages: seq<Stage>, j: nat, k: nat)
    requires Known(node, t, tA, rows, stages) && j < |stages| && !stages[j].Done? && k < |rows| && k / KEYS_PAGE == j
    ensures FindKey(t, rows[k].key) == FindKey(tA, rows[k].key)
  {
    hide Commits, Dominated, FindKey, Lacking;
    assert FindKey(t, rows[k].key) == Found(node, tA, rows, stages, k);
  }

  /** The request is answered with a pack of exactly these rows. */
  lemma RequestStep(pair: Pair, all: set<Row>, tA: Table, tB: Table, rows: Table, answering: bool, s: State,
                    p: Progress,
                    i: nat, now: u64, nows: seq<u64>, s': State, j: nat) returns (p': Progress)
    requires Course(pair, all, tA, tB, rows, answering, s, p) && OneOfEach(rows) && Deliver(pair, s, i, now, nows, s')
    requires Ascending(tB) && forall r :: r in rows ==> r in all && r in tB
    requires j < |p.stages| && p.stages[j].Requested?
    requires s.net[i] == Post(true, Request(MdbxDriver.Hashes(Lacking(tA, Page(rows, j)))))
    ensures Course(pair, all, tA, tB, rows, answering, s', p')
  {
    hide Found, Within, Dominated, Posts, FindKey, Above, Lacking, MdbxDriver.Hashes, PackRows, Known;
    var page := Page(rows, j);
    var m := Lacking(tA, page);
    PageOf(rows, j, all);
    forall r | r in m ensures r in tB {
      LackingMeans(tA, page, r);
    }
    FoundIsAsked(tB, m);
    p' := p.(stages := p.stages[j := Sent]);
    PageMoves(pair, all, tA, tB, rows, answering, s, p, i, s', j, Sent, Reply(pair, s, s.net[i], now));
  }

  /** The pack is taken as a whole or undone as a whole, and no other row is touched. */
  lemma FoundAfterPack(node: Node, t: Table, t': Table, tA: Table, rows: Table, all: set<Row>, stages: seq<Stage>,
                       j: nat)
    requires Known(node, t, tA, rows, stages) && OneOfEach(rows) && Within(t, all) && Within(t', all) && Within(tA, all)
    requires j < |stages| && stages[j].Sent? && j * KEYS_PAGE < |rows| && Distinct(all)
          && forall r :: r in rows ==> r in all
    requires var m := Lacking(tA, Page(rows, j));
             m != [] && if Commits(node, t, m) then Takes(t, m, t') else t' == t
    ensures Known(node, t', tA, rows, stages[j := Done])
  {
    hide Dominated, FindKey, Lacking, Within, Found, Distinct;
    var page := Page(rows, j);
    var m := Lacking(tA, page);
    PageOf(rows, j, all);
    SameCommits(node, t, tA, rows, all, stages, j);
    forall k | 0 <= k < |rows|
      ensures FindKey(t', rows[k].key) == Found(node, tA, rows, stages[j := Done], k)
    {
      RowAfterPack(node, t, t', tA, rows, all, stages, j, k);
    }
  }

  lemma SameCommits(node: Node, t: Table, tA: Table, rows: Table, all: set<Row>, stages: seq<Stage>, j: nat)
    requires Known(node, t, tA, rows, stages) && OneOfEach(rows) && Within(t, all) && Within(tA, all)
    requires j < |stages| && stages[j].Sent? && j * KEYS_PAGE < |rows| && forall r :: r in rows ==> r in all
    ensures Commits(node, t, Lacking(tA, Page(rows, j))) <==> Commits(node, tA, Lacking(tA, Page(rows, j)))
    ensures forall r :: r in Page(rows, j) ==> FindKey(t, r.key) == FindKey(tA, r.key)
    ensures forall r :: r in Page(rows, j) ==> (Dominated(t, r) <==> Dominated(tA, r))
  {
    hide Dominated, FindKey, Lacking, Within, Found, Known;
    var page := Page(rows, j);
    var m := Lacking(tA, page);
    PageOf(rows, j, all);
    forall r | r in page
      ensures FindKey(t, r.key) == FindKey(tA, r.key) && (Dominated(t, r) <==> Dominated(tA, r))
    {
      var k :| 0 <= k < |rows| && rows[k] == r;
      StillThere(node, t, tA, rows, stages, j, k);
      SameCover(t, tA, all, r);
    }
    if m != [] {
      LackingMeans(tA, page, m[|m| - 1]);
    }
  }

  lemma RowAfterPack(node: Node, t: Table, t': Table, tA: Table, rows: Table, all: set<Row>, stages: seq<Stage>, j: nat,
                     k: nat)
    requires Known(node, t, tA, rows, stages) && OneOfEach(rows) && Within(tA, all) && Distinct(all)
    requires j < |stages| && stages[j].Sent? && j * KEYS_PAGE < |rows| && k < |rows|
          && forall r :: r in rows ==> r in all
    requires Commits(node, t, Lacking(tA, Page(rows, j))) <==> Commits(node, tA, Lacking(tA, Page(rows, j)))
    requires forall r :: r in Page(rows, j) ==> FindKey(t, r.key) == FindKey(tA, r.key)
    requires forall r :: r in Page(rows, j) ==> (Dominated(t, r) <==> Dominated(tA, r))
    requires var m := Lacking(tA, Page(rows, j)); if Commits(node, t, m) then Takes(t, m, t') else t' == t
    ensures FindKey(t', rows[k].key) == Found(node, tA, rows, stages[j := Done], k)
  {
    hide Dominated, FindKey, Lacking, Within, Commits, Distinct;
    var page, r := Page(rows, j), rows[k];
    var m := Lacking(tA, page);
    PageOf(rows, j, all);
    assert FindKey(t, r.key) == Found(node, tA, rows, stages, k);
    LackingMeans(tA, page, r);
    if r !in m {
      forall x | x in m ensures x.key != r.key {
        LackingMeans(tA, page, x);
        var l :| 0 <= l < |rows| && rows[l] == x;
      }
      if r in page {
        HeldIsFound(tA, all, r);
        FoundIsIn(tA, r.key);
        SelfCovered(tA, r);
      }
    }
  }

  /** The delivery of a pack of rows in play to A. */
  lemma PackDelivery(pair: Pair, all: set<Row>, s: State, i: nat, now: u64, nows: seq<u64>, s': State, m: Table)
    requires Deliver(pair, s, i, now, nows, s') && s.net[i] == Post(true, Records(PackRows(pair.group, m)))
    requires Peaceful(pair.a, pair.group, all) && Within(TableAt(pair, s, true), all)
    requires forall n :: n in nows ==> FreshAt(pair.a, pair.group, all, n)
    requires 1 <= |m| <= KEYS_PAGE && OneOfEach(m) && forall r :: r in m ==> r in all
    ensures TableAt(pair, s', false) == TableAt(pair, s, false) && s'.net == s.net[..i] + s.net[i + 1..] + []
    ensures var t, t' := TableAt(pair, s, true), TableAt(pair, s', true);
            Within(t', all) && if Commits(pair.a, t, m) then Takes(t, m, t') else t' == t
  {
    hide Within, PackRows, UnpackOf, AfterRecords, FreshAt, Peaceful, Takes, Commits;
    var pack := s.net[i].mail.pack;
    PackDelivers(pair.a, pair.group, all, pack, m);
    PackTakes(pair.a, pair.group, all, s.a, pack, m, nows);
  }

  lemma RecordsStep(pair: Pair, all: set<Row>, tA: Table, tB: Table, rows: Table, answering: bool, s: State,
                    p: Progress,
                    i: nat, now: u64, nows: seq<u64>, s': State, j: nat) returns (p': Progress)
    requires Course(pair, all, tA, tB, rows, answering, s, p) && OneOfEach(rows) && Deliver(pair, s, i, now, nows, s')
    requires Peaceful(pair.a, pair.group, all) && Within(tA, all) && forall r :: r in rows ==> r in all
    requires forall n :: n in nows ==> FreshAt(pair.a, pair.group, all, n)
    requires j < |p.stages| && p.stages[j].Sent?
    requires s.net[i] == Post(true, Records(PackRows(pair.group, Lacking(tA, Page(rows, j)))))
    ensures Course(pair, all, tA, tB, rows, answering, s', p')
  {
    hide Found, Within, Dominated, Posts, FindKey, Above, Lacking, PackRows, Known, FreshAt, Peaceful, Takes, Commits,
         Distinct, Effect, Reply;
    var page := Page(rows, j);
    var m := Lacking(tA, page);
    PageOf(rows, j, all);
    LackingOneOfEach(tA, page);
    forall r | r in m ensures r in all {
      LackingMeans(tA, page, r);
    }
    PackDelivery(pair, all, s, i, now, nows, s', m);
    hide Deliver;
    PeacefulDistinct(pair.a, pair.group, all);
    FoundAfterPack(pair.a, TableAt(pair, s, true), TableAt(pair, s', true), tA, rows, all, p.stages, j);
    p' := p.(stages := p.stages[j := Done]);
    NetAfter(s.net, i, []);
    StageMoves(pair.group, tA, rows, p.stages, j, Done);
    NetMoves(multiset(s'.net), multiset(s.net), Posts(pair.group, tA, rows, p.stages),
             Posts(pair.group, tA, rows, p'.stages), ReaderPost(p.reader, answering), multiset{s.net[i]}, multiset{});
  }

  /** What a turn of the reader sends, when nothing is expired. */
  lemma PageTurn(tB: Table, rows: Table, f: Hash, k: nat, answering: bool, ttl: u64, now: u64)
    requires Ascending(tB) && InRange(ttl, tB) && forall r :: r in tB ==> !Expired(ttl, r.hash.ts, now)
    requires k * KEYS_PAGE <= |rows| && Above(tB, f) == rows[k * KEYS_PAGE..]
    requires answering || |rows| % KEYS_PAGE != 0
    ensures var turn, n := TurnOf(HashPage(tB, f, KEYS_PAGE), f, answering, ttl, now), (k + 1) * KEYS_PAGE;
            && turn.sent == MdbxDriver.Hashes(Page(rows, k)) && !turn.groupRequest
            && if turn.again then n <= |rows| && Above(tB, turn.lastHash) == rows[n..] else |rows| < n
  {
    hide TurnOf, HashPage, Above, Unexpired, Expired, PageRows, Page, MdbxDriver.Hashes, Ascending, InRange;
    TurnMeans(tB, f, answering, ttl, now);
    PageIsRead(tB, rows, f, k, ttl, now);
    NothingExpired(ttl, now, Page(rows, k));
  }

  lemma PageIsRead(tB: Table, rows: Table, f: Hash, k: nat, ttl: u64, now: u64)
    requires Ascending(tB) && InRange(ttl, tB) && forall r :: r in tB ==> !Expired(ttl, r.hash.ts, now)
    requires k * KEYS_PAGE <= |rows| && Above(tB, f) == rows[k * KEYS_PAGE..]
    ensures var page, n := Page(rows, k), (k + 1) * KEYS_PAGE;
            && page == PageRows(tB, f) && Ascending(page) && InRange(ttl, page)
            && (page != [] ==> !Expired(ttl, page[0].hash.ts, now))
            && (n <= |rows| ==> Above(tB, f)[KEYS_PAGE..] == rows[n..])
            && (Above(tB, f) == [] ==> |rows| % KEYS_PAGE == 0)
  {
    hide Above, Expired;
    var page := Page(rows, k);
    AboveIsSuffix(tB, f);
    assert page == PageRows(tB, f);
    assert forall r :: r in page ==> r in Above(tB, f);
  }

  /** The replies to the reader: its page, if there is anything on it, and its next turn. */
  lemma ReaderReply(pair: Pair, all: set<Row>, tB: Table, rows: Table, s: State, f: Hash, k: nat, answering: bool,
                    now: u64)
    returns (next: Option<Hash>)
    requires PairOk(pair, all) && Timely(pair, all, now) && Within(tB, all) && TableAt(pair, s, false) == tB
    requires k * KEYS_PAGE <= |rows| && Above(tB, f) == rows[k * KEYS_PAGE..]
    requires answering || |rows| % KEYS_PAGE != 0
    ensures var page, n := Page(rows, k), (k + 1) * KEYS_PAGE;
            && multiset(Reply(pair, s, Post(true, Reader(f, answering)), now))
               == (if page == [] then multiset{} else multiset{Post(true, Hashes(MdbxDriver.Hashes(page)))})
                  + ReaderPost(next, answering)
            && if next.Some? then n <= |rows| && Above(tB, next.value) == rows[n..] else |rows| < n
  {
    hide Peaceful, TurnOf, HashPage, Above, Expired, MdbxDriver.Hashes, Tidy;
    var ttl := pair.Ttl(false);
    assert FreshAt(pair.At(false), pair.group, all, now);
    WithinAscends(tB, all);
    PageTurn(tB, rows, f, k, answering, ttl, now);
    var page, turn := Page(rows, k), TurnOf(HashPage(tB, f, KEYS_PAGE), f, answering, ttl, now);
    NoHashes(page);
    next := if turn.again then Some(turn.lastHash) else None;
    var a := if page == [] then [] else [Post(true, Hashes(MdbxDriver.Hashes(page)))];
    var b := if turn.again then [Post(true, Reader(turn.lastHash, answering))] else [];
    assert Reply(pair, s, Post(true, Reader(f, answering)), now) == a + b;
  }

  lemma ReaderStep(pair: Pair, all: set<Row>, tA: Table, tB: Table, rows: Table, answering: bool, s: State, p: Progress,
                   i: nat, now: u64, nows: seq<u64>, s': State) returns (p': Progress)
    requires Course(pair, all, tA, tB, rows, answering, s, p) && Deliver(pair, s, i, now, nows, s')
    requires PairOk(pair, all) && Timely(pair, all, now) && Within(tB, all)
    requires answering || |rows| % KEYS_PAGE != 0
    requires p.reader.Some? && s.net[i] == Post(true, Reader(p.reader.value, answering))
    ensures Course(pair, all, tA, tB, rows, answering, s', p')
  {
    hide Within, Posts, Above, Reply, PairOk, Timely, Known, Asked, MdbxDriver.Hashes, Page, ReaderPost;
    var k := |p.stages|;
    var page := Page(rows, k);
    PageSize(rows, k);
    var next := ReaderReply(pair, all, tB, rows, s, p.reader.value, k, answering, now);
    var stages := if page == [] then p.stages else p.stages + [Announced];
    p' := Progress(stages, next);
    NetAfter(s.net, i, Reply(pair, s, s.net[i], now));
    if page != [] {
      StagesGrow(pair.a, pair.group, TableAt(pair, s, true), tA, rows, p.stages);
    }
    var hashes := if page == [] then multiset{} else multiset{Post(true, Hashes(MdbxDriver.Hashes(page)))};
    IsReader(p.reader.value, answering);
    ReaderMoves(multiset(s'.net), multiset(s.net), Posts(pair.group, tA, rows, p.stages), multiset{s.net[i]}, hashes,
                ReaderPost(next, answering));
  }

  lemma IsReader(f: Hash, answering: bool)
    ensures ReaderPost(Some(f), answering) == multiset{Post(true, Reader(f, answering))}
  {
  }

  lemma PageSize(rows: Table, k: nat)
    requires k * KEYS_PAGE <= |rows|
    ensures Page(rows, k) == [] <==> |rows| == k * KEYS_PAGE
  {
  }

  /** One more page is announced. */
  lemma StagesGrow(node: Node, group: bytes, t: Table, tA: Table, rows: Table, stages: seq<Stage>)
    requires |stages| * KEYS_PAGE < |rows| && Known(node, t, tA, rows, stages) && Asked(tA, rows, stages)
    ensures Known(node, t, tA, rows, stages + [Announced]) && Asked(tA, rows, stages + [Announced])
    ensures Posts(group, tA, rows, stages + [Announced])
         == Posts(group, tA, rows, stages) + multiset{Post(true, Hashes(MdbxDriver.Hashes(Page(rows, |stages|))))}
  {
    hide Lacking, MdbxDriver.Hashes, FindKey, Commits, Dominated;
    assert (stages + [Announced])[..|stages|] == stages;
    forall i | 0 <= i < |rows|
      ensures Found(node, tA, rows, stages + [Announced], i) == Found(node, tA, rows, stages, i) {
    }
  }

  lemma ReaderMoves(net': multiset<Post>, net: multiset<Post>, posts: multiset<Post>, was: multiset<Post>,
                    hashes: multiset<Post>, next: multiset<Post>)
    requires net' + was == net + (hashes + next) && net == posts + was
    ensures net' == (posts + hashes) + next
  {
    assert net' + was == ((posts + hashes) + next) + was;
    assert net' == (net' + was) - was;
    assert (posts + hashes) + next == (((posts + hashes) + next) + was) - was;
  }

  lemma InPlay(pair: Pair, all: set<Row>, tB: Table, now: u64)
    requires PairOk(pair, all) && Within(tB, all)
    ensures Peaceful(pair.a, pair.group, all) && Distinct(all) && Ascending(tB) && forall r :: r in tB ==> r in all
    ensures Timely(pair, all, now) ==> FreshAt(pair.a, pair.group, all, now)
  {
    hide Peaceful, Tidy, FreshAt;
    PeacefulDistinct(pair.a, pair.group, all);
    WithinAscends(tB, all);
    assert Timely(pair, all, now) ==> FreshAt(pair.At(true), pair.group, all, now);
  }

  /** Whatever is delivered next, the pull stays on its course. */
  lemma CourseStep(pair: Pair, all: set<Row>, tA: Table, tB: Table, from: Hash, answering: bool, s: State, p: Progress,
                   i: nat, now: u64, nows: seq<u64>, s': State) returns (p': Progress)
    requires Course(pair, all, tA, tB, Above(tB, from), answering, s, p) && Deliver(pair, s, i, now, nows, s')
    requires PairOk(pair, all) && Timely(pair, all, now) && forall n :: n in nows ==> Timely(pair, all, n)
    requires Within(tA, all) && Within(tB, all) && (answering || |Above(tB, from)| % KEYS_PAGE != 0)
    ensures Course(pair, all, tA, tB, Above(tB, from), answering, s', p')
  {
    hide Within, Above, PairOk, OneOfEach, Distinct, Timely, Ascending, Peaceful, FreshAt, Deliver, Course, PackRows,
         MdbxDriver.Hashes, Lacking;
    var rows := Above(tB, from);
    RowsOf(tB, from, all);
    InPlay(pair, all, tB, now);
    var j := Delivered(pair, all, tA, tB, rows, answering, s, p, i, now, nows, s');
    var post := s.net[i];
    if p.reader.Some? && post == Post(true, Reader(p.reader.value, answering)) {
      p' := ReaderStep(pair, all, tA, tB, rows, answering, s, p, i, now, nows, s');
    } else if p.stages[j].Announced? {
      p' := HashesStep(pair, all, tA, tB, rows, answering, s, p, i, now, nows, s', j);
    } else if p.stages[j].Requested? {
      p' := RequestStep(pair, all, tA, tB, rows, answering, s, p, i, now, nows, s', j);
    } else {
      forall n | n in nows ensures FreshAt(pair.a, pair.group, all, n) {
        InPlay(pair, all, tB, n);
      }
      p' := RecordsStep(pair, all, tA, tB, rows, answering, s, p, i, now, nows, s', j);
    }
  }

  /** What is delivered belongs to the reader or to a page. */
  lemma Delivered(pair: Pair, all: set<Row>, tA: Table, tB: Table, rows: Table, answering: bool, s: State, p: Progress,
                  i: nat, now: u64, nows: seq<u64>, s': State) returns (j: nat)
    requires Course(pair, all, tA, tB, rows, answering, s, p) && Deliver(pair, s, i, now, nows, s')
    ensures i < |s.net| && Paged(rows, |p.stages|)
    ensures || (p.reader.Some? && s.net[i] == Post(true, Reader(p.reader.value, answering)))
            || (j < |p.stages| && !p.stages[j].Done?
              && s.net[i] == StagePost(pair.group, tA, Page(rows, j), p.stages[j]))
  {
    hide Within, Posts, StagePost, Effect, Reply, Known, Asked, At;
    var post := s.net[i];
    assert post in multiset(s.net);
    if post in Posts(pair.group, tA, rows, p.stages) {
      j := StageOf(pair.group, tA, rows, p.stages, post);
    } else {
      j := |p.stages|;
    }
  }

  // Whole pulls.

  /** A reader of B is queued, and nothing else is under way; it will not ask back. */
  ghost predicate Pulls(pair: Pair, all: set<Row>, from: Hash, answering: bool, states: seq<State>) {
    && Run(pair, all, states) && PairOk(pair, all)
    && states[0].net == [Post(true, Reader(from, answering))]
    && Within(TableAt(pair, states[0], true), all) && Within(TableAt(pair, states[0], false), all)
    && (answering || |Above(TableAt(pair, states[0], false), from)| % KEYS_PAGE != 0)
  }

  lemma {:induction false} PullCourse(pair: Pair, all: set<Row>, from: Hash, answering: bool, states: seq<State>)
    returns (p: Progress)
    requires states != [] && Pulls(pair, all, from, answering, states)
    ensures var tA, tB := TableAt(pair, states[0], true), TableAt(pair, states[0], false);
            && Course(pair, all, tA, tB, Above(tB, from), answering, Final(states), p)
            && Core(pair, all, tA, tB, Final(states))
  {
    hide Course, Core, PairOk, Deliver, Timely, Within, Above;
    var tA, tB := TableAt(pair, states[0], true), TableAt(pair, states[0], false);
    if |states| == 1 {
      p := Progress([], Some(from));
      PullStarts(pair, all, from, answering, states[0]);
    } else {
      var k := |states| - 1;
      assert states[..k][k - 1] == states[k - 1];
      var q := PullCourse(pair, all, from, answering, states[..k]);
      assert Step(pair, all, states[k - 1], states[k]);
      var i: nat, now: u64, nows: seq<u64> :| Deliver(pair, states[k - 1], i, now, nows, states[k])
        && Timely(pair, all, now) && forall n :: n in nows ==> Timely(pair, all, n);
      p := CourseStep(pair, all, tA, tB, from, answering, states[k - 1], q, i, now, nows, states[k]);
      CoreStep(pair, all, tA, tB, states[k - 1], i, now, nows, states[k]);
    }
  }

  lemma PullStarts(pair: Pair, all: set<Row>, from: Hash, answering: bool, s: State)
    requires s.net == [Post(true, Reader(from, answering))]
    requires Within(TableAt(pair, s, true), all) && Within(TableAt(pair, s, false), all)
    ensures var tA, tB := TableAt(pair, s, true), TableAt(pair, s, false);
            && Course(pair, all, tA, tB, Above(tB, from), answering, s, Progress([], Some(from)))
            && Core(pair, all, tA, tB, s)
  {
    hide Within, Dominated, FindKey, Above, Lacking;
  }

  lemma {:induction false} AllDone(group: bytes, tA: Table, rows: Table, stages: seq<Stage>)
    requires Paged(rows, |stages|) && Posts(group, tA, rows, stages) == multiset{}
    ensures forall j :: 0 <= j < |stages| ==> stages[j].Done?
  {
    hide StagePost, Page;
    if stages != [] {
      var k := |stages| - 1;
      NothingInBoth(Posts(group, tA, rows, stages[..k]), PostOf(group, tA, Page(rows, k), stages[k]));
      AllDone(group, tA, rows, stages[..k]);
      assert forall j :: 0 <= j < k ==> stages[j] == stages[..k][j];
    }
  }

  lemma NothingInBoth(a: multiset<Post>, b: multiset<Post>)
    requires a + b == multiset{}
    ensures a == multiset{} && b == multiset{}
  {
    forall x ensures a[x] == 0 && b[x] == 0 {
      assert (a + b)[x] == 0;
    }
  }

  /**
   What a pull brings, row by row: however its packets were interleaved, A covers a row of B in the end
   exactly when it did so before or the pack of the row's page was kept. Nothing that A covered is lost.
   */
  lemma PullCovers(pair: Pair, all: set<Row>, from: Hash, answering: bool, states: seq<State>)
    requires states != [] && Pulls(pair, all, from, answering, states) && Final(states).net == []
    ensures var tA, tB := TableAt(pair, states[0], true), TableAt(pair, states[0], false);
            var t, rows := TableAt(pair, Final(states), true), Above(tB, from);
            && Within(t, all) && (forall y :: Dominated(tA, y) ==> Dominated(t, y))
            && TableAt(pair, Final(states), false) == tB
            && forall i :: 0 <= i < |rows| ==>
                 (Dominated(t, rows[i]) <==>
                  Dominated(tA, rows[i]) || Commits(pair.a, tA, Lacking(tA, Page(rows, i / KEYS_PAGE))))
  {
    hide Pulls, Dominated, FindKey, Above, Lacking, Within, Commits, InFlight, Posts;
    var tA, tB, s := TableAt(pair, states[0], true), TableAt(pair, states[0], false), Final(states);
    var t, rows := TableAt(pair, s, true), Above(tB, from);
    var p := PullCourse(pair, all, from, answering, states);
    assert multiset(s.net) == multiset{};
    assert Posts(pair.group, tA, rows, p.stages) == multiset{} && p.reader.None?;
    AllDone(pair.group, tA, rows, p.stages);
    PullsWithin(pair, all, from, answering, states);
    forall i | 0 <= i < |rows|
      ensures Dominated(t, rows[i]) <==>
              Dominated(tA, rows[i]) || Commits(pair.a, tA, Lacking(tA, Page(rows, i / KEYS_PAGE)))
    {
      assert i / KEYS_PAGE < |p.stages|;
      assert FindKey(t, rows[i].key) == Found(pair.a, tA, rows, p.stages, i);
      Covered(t, tA, all, rows[i]);
    }
  }

  lemma PullsWithin(pair: Pair, all: set<Row>, from: Hash, answering: bool, states: seq<State>)
    requires states != [] && Pulls(pair, all, from, answering, states)
    ensures Within(TableAt(pair, states[0], true), all) && Within(TableAt(pair, states[0], false), all)
    ensures PairOk(pair, all)
  {
    hide PairOk, Within, Run;
  }

  lemma Covered(t: Table, tA: Table, all: set<Row>, r: Row)
    requires Within(t, all) && Within(tA, all)
    ensures FindKey(t, r.key) == Some(r) ==> Dominated(t, r)
    ensures FindKey(t, r.key) == FindKey(tA, r.key) ==> (Dominated(t, r) <==> Dominated(tA, r))
  {
    hide Dominated, FindKey, Tidy;
    CoveredMeans(t, r);
    CoveredMeans(tA, r);
  }

  /** The pack for a page is kept, or the table covers the page anyway. */
  ghost predicate PageKept(node: Node, t: Table, page: Table) {
    Commits(node, t, Lacking(t, page)) || forall r :: r in page ==> Dominated(t, r)
  }

  /** The condition on the two tables under which a pull brings everything: page by page, before it starts. */
  ghost predicate Kept(node: Node, t: Table, rows: Table) {
    forall j :: 0 <= j && j * KEYS_PAGE < |rows| ==> PageKept(node, t, Page(rows, j))
  }

  lemma KeptMeans(node: Node, t: Table, tA: Table, rows: Table)
    requires OneOfEach(rows)
    requires forall i :: 0 <= i < |rows| ==>
               (Dominated(t, rows[i]) <==>
                Dominated(tA, rows[i]) || Commits(node, tA, Lacking(tA, Page(rows, i / KEYS_PAGE))))
    ensures (forall r :: r in rows ==> Dominated(t, r)) <==> Kept(node, tA, rows)
  {
    hide Dominated, Lacking, Commits, OneOfEach;
    var all := set r | r in rows;
    if Kept(node, tA, rows) {
      forall r | r in rows ensures Dominated(t, r) {
        var i :| 0 <= i < |rows| && rows[i] == r;
        PageOf(rows, i / KEYS_PAGE, all);
        assert PageKept(node, tA, Page(rows, i / KEYS_PAGE));
      }
    }
    if forall r :: r in rows ==> Dominated(t, r) {
      forall j | 0 <= j && j * KEYS_PAGE < |rows| ensures PageKept(node, tA, Page(rows, j)) {
        PageOf(rows, j, all);
        forall r | r in Page(rows, j) && !Commits(node, tA, Lacking(tA, Page(rows, j))) ensures Dominated(tA, r) {
          var i :| 0 <= i < |rows| && rows[i] == r;
        }
      }
    }
  }

  /** A pull leaves A with a covering of all that B sends exactly when no page with news for A is undone. */
  lemma PullMergesIff(pair: Pair, all: set<Row>, from: Hash, answering: bool, states: seq<State>)
    requires states != [] && Pulls(pair, all, from, answering, states) && Final(states).net == []
    ensures var rows := Above(TableAt(pair, states[0], false), from);
            (forall r :: r in rows ==> Dominated(TableAt(pair, Final(states), true), r))
            <==> Kept(pair.a, TableAt(pair, states[0], true), rows)
    ensures !pair.a.transactions
        ==> Kept(pair.a, TableAt(pair, states[0], true), Above(TableAt(pair, states[0], false), from))
  {
    hide Pulls, Dominated, Above, Lacking, Within, OneOfEach;
    var tA, tB := TableAt(pair, states[0], true), TableAt(pair, states[0], false);
    PullsWithin(pair, all, from, answering, states);
    RowsOf(tB, from, all);
    PullCovers(pair, all, from, answering, states);
    KeptMeans(pair.a, TableAt(pair, Final(states), true), tA, Above(tB, from));
  }

  /** Covering is passed on: what one table covers is covered by any table that covers its rows. */
  lemma DominatedChain(t: Table, t': Table, r: Row)
    requires Dominated(t, r) && forall x :: x in t ==> Dominated(t', x)
    ensures Dominated(t', r)
  {
    var x :| x in t && x.key == r.key && r.hash.AtMost(x.hash);
    var y :| y in t' && y.key == x.key && x.hash.AtMost(y.hash);
    assert y.key == r.key && r.hash.AtMost(y.hash);
  }

  /** Everything is above the blank hash. */
  lemma AboveBlank(pair: Pair, all: set<Row>, t: Table)
    requires PairOk(pair, all) && Within(t, all)
    ensures Above(t, BLANK) == t
  {
    hide Peaceful, Tidy;
    assert t == [] || (t[0] in all && BLANK.Less(t[0].hash));
  }

  /** A pull of everything: what the table of A covers in the end, in terms of both tables at the start. */
  lemma FullPull(pair: Pair, all: set<Row>, states: seq<State>)
    requires states != [] && Pulls(pair, all, BLANK, true, states) && Final(states).net == []
    ensures var tA, tB := TableAt(pair, states[0], true), TableAt(pair, states[0], false);
            var t := TableAt(pair, Final(states), true);
            && Within(t, all) && Distinct(all) && (forall r :: r in tA ==> Dominated(t, r))
            && ((forall r :: r in tB ==> Dominated(t, r)) <==> Kept(pair.a, tA, tB))
            && (!pair.a.transactions ==> Kept(pair.a, tA, tB))
  {
    hide Pulls, Dominated, Above, Within, Kept, PairOk, Run;
    var tA, tB := TableAt(pair, states[0], true), TableAt(pair, states[0], false);
    PullsWithin(pair, all, BLANK, true, states);
    InPlay(pair, all, tB, 0);
    AboveBlank(pair, all, tB);
    PullCovers(pair, all, BLANK, true, states);
    PullMergesIff(pair, all, BLANK, true, states);
    forall r | r in tA ensures Dominated(tA, r) {
      SelfCovered(tA, r);
    }
  }

  /**
   Convergence: after a pull by A from B and then one by B from A, the two tables are equal exactly when
   no pull had a page with news undone. Then both hold the newest record of every key that either node held.
   */
  lemma TwoPullsConvergeIff(a: Node, b: Node, group: bytes, all: set<Row>, pullA: seq<State>, pullB: seq<State>)
    requires pullA != [] && Pulls(Pair(a, b, group), all, BLANK, true, pullA) && Final(pullA).net == []
    requires pullB != [] && Pulls(Pair(b, a, group), all, BLANK, true, pullB) && Final(pullB).net == []
    requires pullB[0].a == pullA[0].b && pullB[0].b == Final(pullA).a
    requires all == Rows(TableOf(pullA[0].a, group)) + Rows(TableOf(pullA[0].b, group))
    ensures var tA, tB := TableOf(pullA[0].a, group), TableOf(pullA[0].b, group);
            var t, u := TableOf(Final(pullA).a, group), TableOf(Final(pullB).a, group);
            && (t == u <==> Kept(a, tA, tB) && Kept(b, tB, t))
            && (t == u ==> Newest(t, all))
  {
    hide Pulls, Dominated, Within, Kept, Newest;
    var tA, tB := TableOf(pullA[0].a, group), TableOf(pullA[0].b, group);
    var t, u := TableOf(Final(pullA).a, group), TableOf(Final(pullB).a, group);
    FullPull(Pair(a, b, group), all, pullA);
    FullPull(Pair(b, a, group), all, pullB);
    forall r | r in t ensures Dominated(t, r) {
      SelfCovered(t, r);
    }
    if Kept(a, tA, tB) && Kept(b, tB, t) {
      forall r | r in all ensures Dominated(t, r) && Dominated(u, r) {
        DominatedChain(t, u, r);
      }
      MergeIsNewest(t, all);
      MergeIsNewest(u, all);
      NewestIsUnique(t, u, all);
    }
  }

  /** In particular, nodes whose drivers have no transactions, as the MDBX driver is set up, always converge. */
  lemma TwoPullsConverge(a: Node, b: Node, group: bytes, all: set<Row>, pullA: seq<State>, pullB: seq<State>)
    requires pullA != [] && Pulls(Pair(a, b, group), all, BLANK, true, pullA) && Final(pullA).net == []
    requires pullB != [] && Pulls(Pair(b, a, group), all, BLANK, true, pullB) && Final(pullB).net == []
    requires pullB[0].a == pullA[0].b && pullB[0].b == Final(pullA).a
    requires all == Rows(TableOf(pullA[0].a, group)) + Rows(TableOf(pullA[0].b, group))
    requires !a.transactions && !b.transactions
    ensures TableOf(Final(pullA).a, group) == TableOf(Final(pullB).a, group)
    ensures Newest(TableOf(Final(pullA).a, group), all)
  {
    hide Pulls, Dominated, Within, Kept, Newest;
    FullPull(Pair(a, b, group), all, pullA);
    FullPull(Pair(b, a, group), all, pullB);
    TwoPullsConvergeIff(a, b, group, all, pullA, pullB);
  }

  /**
   Transactions can keep nodes apart: A has a record, B an older one of its key and, still older, one of
   another key. The pack with both ends in a rejection, so A never takes the one it lacks.
   */
  lemma UndonePage(node: Node, newer: Row, older: Row, other: Row)
    requires newer.key == older.key != other.key && other.hash.Less(older.hash) && older.hash.Less(newer.hash)
    ensures Kept(node, [newer], [other, older]) <==> !node.transactions
  {
    var t, rows := [newer], [other, older];
    assert rows[..1] == [other] && [other][..0] == [];
    OneRow(newer, older.hash, older.key);
    OneRow(newer, other.hash, other.key);
    assert Lacking(t, [other]) == [other];
    assert Lacking(t, rows) == [other] + [older];
    assert Page(rows, 0) == rows;
    assert other in rows && !Dominated(t, other);
    assert newer in t && Dominated(t, older);
    assert Kept(node, t, rows) <==> PageKept(node, t, Page(rows, 0));
  }

  // Group names of full length.

  /** Packs of rows of the group, whatever they are and wherever they go. */
  ghost predicate Packs(group: bytes, mail: Mail) {
    match mail
    case Hashes(hs) => |hs| <= KEYS_PAGE
    case Request(hs) => |hs| <= KEYS_PAGE
    case Records(pack) =>
      exists rows :: 1 <= |rows| <= KEYS_PAGE && pack == PackRows(group, rows)
          && forall r :: r in rows ==> Packable(group, r)
    case _ => true
  }

  ghost predicate RowsPack(pair: Pair, s: State) {
    forall side :: Ascending(TableAt(pair, s, side))
        && forall r :: r in TableAt(pair, s, side) ==> Packable(pair.group, r)
  }

  lemma SameRowsPack(pair: Pair, s: State, s': State)
    requires RowsPack(pair, s) && s'.a == s.a && s'.b == s.b
    ensures RowsPack(pair, s')
  {
    hide Packable, Ascending;
    forall side ensures TableAt(pair, s', side) == TableAt(pair, s, side) {
    }
  }

  lemma ReplyPacks(pair: Pair, s: State, post: Post, now: u64)
    requires RowsPack(pair, s)
    requires Packs(pair.group, post.mail)
    ensures forall p :: p in Reply(pair, s, post, now) ==> Packs(pair.group, p.mail)
  {
    hide PackRows, Packable, TurnOf, HashPage, TableAt, Pair.Ttl;
    var source := TableAt(pair, s, !post.to);
    if post.mail.Reader? {
      TurnIsShort(source, post.mail.from, post.mail.answering, pair.Ttl(!post.to), now);
    } else if post.mail.Request? {
      var rows := FoundRows(source, post.mail.hs);
      forall r | r in rows ensures Packable(pair.group, r) {
        FoundRowsMeans(source, post.mail.hs, r);
      }
    }
  }

  lemma TurnIsShort(t: Table, from: Hash, answering: bool, ttl: u64, now: u64)
    ensures |TurnOf(HashPage(t, from, KEYS_PAGE), from, answering, ttl, now).sent| <= KEYS_PAGE
  {
    hide Above;
  }

  /** Packs of such a group are rejected, so nothing changes. */
  lemma LongGroupStep(pair: Pair, s: State, i: nat, now: u64, nows: seq<u64>, s': State)
    requires |pair.group| == 128 && 0 !in pair.group
    requires RowsPack(pair, s)
    requires Deliver(pair, s, i, now, nows, s') && forall post :: post in s.net ==> Packs(pair.group, post.mail)
    ensures s'.a == s.a && s'.b == s.b && forall post :: post in s'.net ==> Packs(pair.group, post.mail)
  {
    hide AfterRecords, UnpackOf, PackRows, Packable, Reply;
    var post := s.net[i];
    ReplyPacks(pair, s, post, now);
    if post.mail.Records? {
      var rows :| 1 <= |rows| <= KEYS_PAGE && post.mail.pack == PackRows(pair.group, rows)
        && forall r :: r in rows ==> Packable(pair.group, r);
      UnpackRowsIff(pair.group, rows);
    }
    hide Packs;
    assert forall p :: p in s'.net ==> p in s.net || p in Reply(pair, s, post, now);
  }

  /**
   The limit of the protocol: a group whose name has the full 128 characters is never changed at either node,
   whatever is under way and whatever is delivered.
   */
  lemma {:induction false} LongGroupNeverSyncs(pair: Pair, all: set<Row>, states: seq<State>)
    requires |pair.group| == 128 && 0 !in pair.group && Run(pair, all, states)
    requires RowsPack(pair, states[0]) && forall post :: post in states[0].net ==> Packs(pair.group, post.mail)
    ensures Final(states).a == states[0].a && Final(states).b == states[0].b
    ensures forall post :: post in Final(states).net ==> Packs(pair.group, post.mail)
  {
    hide Deliver, Packs, Packable, Ascending, Timely;
    if |states| > 1 {
      var k := |states| - 1;
      LongGroupNeverSyncs(pair, all, states[..k]);
      assert states[..k][k - 1] == states[k - 1];
      assert Step(pair, all, states[k - 1], states[k]);
      var i: nat, now: u64, nows: seq<u64> :| Deliver(pair, states[k - 1], i, now, nows, states[k]);
      SameRowsPack(pair, states[0], states[k - 1]);
      LongGroupStep(pair, states[k - 1], i, now, nows, states[k]);
    }
  }
}
