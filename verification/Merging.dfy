/**
 Merging records into a table by the conflict rule: what one application does to a table of
 mutually acceptable records, and why the order of applications does not matter.
 */
module Merging {
  import opened Bytes
  import opened DriverHash
  import opened Packet
  import opened PacketPack
  import opened Envelope
  import opened MdbxTable
  import opened MdbxDriver
  import opened StoredTransport
  import opened GlobalDb
  import opened Sweep
  import opened Consistency
  import opened SyncProtocol

  // The records two nodes hold, and what makes them mutually acceptable.

  /** A row that any node of the cluster may take over from another one. */
  ghost predicate Exchangeable(node: Node, group: bytes, r: Row) {
    && Packable(group, r) && |r.value| + |r.sign| > 0 && r.flags < 2
    && PeerCheck(node, ObjOf(group, r), true)
    && SignerRole(node, ByGroup(node.clusters, group).value, ObjOf(group, r)) >= ROLE_USER
  }

  ghost predicate MayReplace(node: Node, group: bytes, r: Row, s: Row) {
    var cl := ByGroup(node.clusters, group);
    cl.Some? && (SignerRole(node, cl.value, ObjOf(group, r)) >= ROLE_ROOT
              || OwnerOf(node, cl.value, ObjOf(group, r), s))
  }

  /** Hashes tell records apart. */
  ghost predicate Distinct(all: set<Row>) {
    forall a, b :: a in all && b in all && a.hash == b.hash ==> a == b
  }

  /**
   All records in play: exchangeable, told apart by their hashes, the
   newer one of a key free to replace the older.
   */
  ghost predicate Peaceful(node: Node, group: bytes, all: set<Row>) {
    && node.crypto.Sound() && ByGroup(node.clusters, group).Some?
    && 1 <= |group| < GROUP_NAME_SIZE_MAX && Printable(group)
    && (forall r :: r in all ==> Exchangeable(node, group, r))
    && Distinct(all)
    && (forall r, s :: r in all && s in all && r.key == s.key && s.hash.Less(r.hash) ==> MayReplace(node, group, r, s))
  }

  /** No record in play is from the future or past its time to live. */
  ghost predicate FreshAt(node: Node, group: bytes, all: set<Row>, now: u64) {
    ByGroup(node.clusters, group).Some? &&
    forall r :: r in all ==> r.hash.ts <= now && !Expired(ByGroup(node.clusters, group).value.ttl, r.hash.ts, now)
  }

  /** The signer may overwrite: by a ROOT role, or as the one owner of all records of the key. */
  ghost predicate Entitled(node: Node, group: bytes, all: set<Row>, r: Row) {
    var cl := ByGroup(node.clusters, group);
    cl.Some? && var role := SignerRole(node, cl.value, ObjOf(group, r));
    || role >= ROLE_ROOT
    || (role >= ROLE_USER && cl.value.ownerRootAccess && r.sign != []
        && forall s :: s in all && s.key == r.key ==>
           s.sign == [] || node.crypto.pkey(s.sign) == node.crypto.pkey(r.sign))
  }

  /** Records that were signed and checksummed by entitled authors and have distinct hashes may be merged freely. */
  lemma AuthoredArePeaceful(node: Node, group: bytes, all: set<Row>, keys: map<Row, Option<bytes>>)
    requires node.crypto.Sound() && 1 <= |group| < GROUP_NAME_SIZE_MAX && Printable(group)
          && ByGroup(node.clusters, group).Some?
    requires Distinct(all) && forall r :: r in all ==> Entitled(node, group, all, r)
    requires forall r :: r in all ==> r in keys && Authored(node.crypto, ObjOf(group, r), keys[r])
    requires forall r :: r in all ==> Packable(group, r) && |r.value| + |r.sign| > 0 && r.flags < 2
    ensures Peaceful(node, group, all)
  {
    hide Check, Authored, Packable, Printable, Covers;
    forall r | r in all ensures Exchangeable(node, group, r) {
      AuthoredChecks(node.crypto, ObjOf(group, r), keys[r]);
    }
  }

  function Rows(t: Table): set<Row> { set r | r in t }

  ghost predicate Within(t: Table, all: set<Row>) {
    Tidy(t) && forall r :: r in t ==> r in all
  }

  /** The table holds this row or a newer one for its key. */
  ghost predicate Dominated(t: Table, r: Row) {
    exists x :: x in t && x.key == r.key && r.hash.AtMost(x.hash)
  }

  /** The table took the row in, if it did not know better. */
  ghost predicate Joined(t: Table, r: Row, t': Table) {
    && Tidy(t') && (forall x :: x in t' ==> x in t || x == r)
    && Dominated(t', r) && (forall y :: Dominated(t, y) ==> Dominated(t', y))
  }

  lemma RowOfObj(group: bytes, r: Row)
    requires WellKept(r) && r.flags < 2
    ensures RowOf(ObjOf(group, r)) == r && Masked(ObjOf(group, r)) == ObjOf(group, r)
    ensures HashOf(ObjOf(group, r)) == r.hash && !IsNew(r.flags) && !IsErase(r.flags) && !IsPinned(r.flags)
  {
  }

  lemma StoreJoins(t: Table, group: bytes, r: Row)
    requires Tidy(t) && WellKept(r) && r.flags < 2 && |r.value| + |r.sign| > 0 && Get(t, r.hash).None?
    requires forall x :: x in t && x.key == r.key ==> x.hash.Less(r.hash)
    ensures Joined(t, r, Store(t, ObjOf(group, r)))
  {
    var o, t' := ObjOf(group, r), Store(t, ObjOf(group, r));
    RowOfObj(group, r);
    StoreKeeps(t, o);
    hide Store, WellKept;
    assert r in t';
    forall y | Dominated(t, y) ensures Dominated(t', y) {
      var x :| x in t && x.key == y.key && y.hash.AtMost(x.hash);
      if x.key == r.key {
        assert r in t' && y.hash.AtMost(r.hash);
      } else {
        TidyFind(t, x);
        assert FindKey(t', x.key) == Some(x);
      }
    }
  }

  /** What the rule decides for a record in play. */
  lemma DecideInPlay(node: Node, ts: Tables, group: bytes, all: set<Row>, r: Row, now: u64)
    requires Peaceful(node, group, all) && FreshAt(node, group, all, now) && Within(TableOf(ts, group), all) && r in all
    ensures var t, o := TableOf(ts, group), ObjOf(group, r); var x := FindKey(t, r.key);
            && Plain(o)
            && (Get(t, r.hash).None? && (x.None? || x.value.hash.Less(r.hash))
                ==> Decide(node, ts, o, now) == Accept(o))
            && (Get(t, r.hash).Some? || (x.Some? && !x.value.hash.Less(r.hash)) ==> Decide(node, ts, o, now).Reject?)
  {
    hide Compare, Check, Sign, Covers, Expired, Tidy;
    var t, o := TableOf(ts, group), ObjOf(group, r);
    var x := FindKey(t, r.key);
    assert Exchangeable(node, group, r);
    RowOfObj(group, r);
    if x.Some? {
      assert x.value.hash.Less(r.hash) ==> MayReplace(node, group, r, x.value);
      CompareIsLexicographic(x.value.hash, r.hash);
    }
  }

  /** Applying a record in play joins it to the table and leaves other groups alone. */
  lemma ApplyJoins(node: Node, ts: Tables, group: bytes, all: set<Row>, r: Row, now: u64)
    requires Peaceful(node, group, all) && FreshAt(node, group, all, now) && Within(TableOf(ts, group), all) && r in all
    ensures Plain(ObjOf(group, r))
    ensures var ts' := Apply(node, ts, ObjOf(group, r), now).tables;
            && Joined(TableOf(ts, group), r, TableOf(ts', group))
            && forall g :: g != group ==> TableOf(ts', g) == TableOf(ts, g)
  {
    hide Store, Check, Sign, Covers;
    var t, o := TableOf(ts, group), ObjOf(group, r);
    var x := FindKey(t, r.key);
    DecideInPlay(node, ts, group, all, r, now);
    assert Exchangeable(node, group, r) && WellKept(r);
    RowOfObj(group, r);
    GetMeans(t, r.hash);
    if Get(t, r.hash).None? && (x.None? || x.value.hash.Less(r.hash)) {
      hide Decide;
      forall y | y in t && y.key == r.key ensures y.hash.Less(r.hash) {
        TidyFind(t, y);
      }
      StoreJoins(t, group, r);
      assert DriverApply(ts, o) == (RC_SUCCESS, ts[group := Store(t, o)]);
    } else {
      hide Decide, DriverApply;
      AlreadyJoined(t, all, r);
    }
  }

  lemma AlreadyJoined(t: Table, all: set<Row>, r: Row)
    requires Within(t, all) && r in all && Distinct(all)
    requires var x := FindKey(t, r.key); Get(t, r.hash).Some? || (x.Some? && !x.value.hash.Less(r.hash))
    ensures Joined(t, r, t)
  {
    GetMeans(t, r.hash);
    var x := if Get(t, r.hash).Some? then Get(t, r.hash).value else FindKey(t, r.key).value;
    assert x in t && x in all && x.key == r.key && r.hash.AtMost(x.hash);
  }

  // Several records, one after the other, in any order and any number of times.

  /** The table took all the rows in. */
  ghost predicate JoinedAll(t: Table, rows: Table, t': Table) {
    && Tidy(t') && (forall x :: x in t' ==> x in t || x in rows)
    && (forall r :: r in rows ==> Dominated(t', r)) && (forall y :: Dominated(t, y) ==> Dominated(t', y))
  }

  lemma JoinStep(t: Table, rows: Table, t1: Table, r: Row, t2: Table)
    requires JoinedAll(t, rows, t1) && Joined(t1, r, t2)
    ensures JoinedAll(t, rows + [r], t2)
  {
    hide Dominated, Tidy;
  }

  lemma {:induction false} ApplyAllJoins(node: Node, ts: Tables, group: bytes, all: set<Row>, rows: Table,
                                         nows: seq<u64>)
    requires Peaceful(node, group, all) && Within(TableOf(ts, group), all) && |rows| == |nows|
    requires forall r :: r in rows ==> r in all
    requires forall now :: now in nows ==> FreshAt(node, group, all, now)
    ensures forall o :: o in Objs(group, rows) ==> Fits(o)
    ensures JoinedAll(TableOf(ts, group), rows, TableOf(ApplyAll(node, ts, Objs(group, rows), nows), group))
  {
    hide Apply, FreshAt, Peaceful, Dominated, Tidy, Fits, ApplyAll, LastCode;
    RowsFit(node, group, all, rows);
    var t := TableOf(ts, group);
    if rows == [] {
      ApplyNone(node, ts);
      JoinNothing(t);
    } else {
      var k := |rows| - 1;
      ApplyAllJoins(node, ts, group, all, rows[..k], nows[..k]);
      ApplyLast(node, ts, group, rows, nows);
      var ts1 := ApplyAll(node, ts, Objs(group, rows[..k]), nows[..k]);
      ApplyJoins(node, ts1, group, all, rows[k], nows[k]);
      var ts2 := Apply(node, ts1, ObjOf(group, rows[k]), nows[k]).tables;
      JoinStep(t, rows[..k], TableOf(ts1, group), rows[k], TableOf(ts2, group));
      assert rows == rows[..k] + [rows[k]];
    }
  }

  lemma RowInPlay(node: Node, group: bytes, all: set<Row>, r: Row)
    requires Peaceful(node, group, all) && r in all
    ensures Packable(group, r) && PeerCheck(node, ObjOf(group, r), true) && Masked(ObjOf(group, r)) == ObjOf(group, r)
  {
    hide Distinct, MayReplace, Check, Covers;
    assert Exchangeable(node, group, r);
    RowOfObj(group, r);
  }

  lemma GroupInPlay(node: Node, group: bytes, all: set<Row>)
    requires Peaceful(node, group, all)
    ensures 1 <= |group| < GROUP_NAME_SIZE_MAX && 0 !in group
  {
    hide Distinct, MayReplace, Exchangeable, Covers;
  }

  /** A pack of rows in play is unpacked into their records, all of which pass the check. */
  lemma PackDelivers(node: Node, group: bytes, all: set<Row>, p: Pack, rows: Table)
    requires Peaceful(node, group, all) && forall r :: r in rows ==> r in all
    requires 1 <= |rows| <= KEYS_PAGE && p == PackRows(group, rows)
    ensures UnpackOf(p).Delivered? && UnpackOf(p).objs == Objs(group, rows)
    ensures forall o :: o in Objs(group, rows) ==> PeerCheck(node, o, true)
  {
    hide UnpackOf, PackRows, Peaceful, PeerCheck, ObjOf, Packable, Printable;
    forall r | r in rows
      ensures Packable(group, r) && PeerCheck(node, ObjOf(group, r), true) && Masked(ObjOf(group, r)) == ObjOf(group, r)
    {
      RowInPlay(node, group, all, r);
    }
    assert forall i :: 0 <= i < |rows| ==> rows[i] in rows;
    GroupInPlay(node, group, all);
    UnpackRowsIff(group, rows);
    assert MaskedObjs(group, rows) == Objs(group, rows);
  }

  /** Processing such a pack joins its rows to the table, or is undone as a whole by a driver with transactions. */
  lemma PackJoins(node: Node, group: bytes, all: set<Row>, ts: Tables, p: Pack, rows: Table, nows: seq<u64>)
    requires Peaceful(node, group, all) && Within(TableOf(ts, group), all) && forall r :: r in rows ==> r in all
    requires 1 <= |rows| <= KEYS_PAGE && p == PackRows(group, rows)
    requires UnpackOf(p).Delivered? && |nows| == |UnpackOf(p).objs|
          && forall now :: now in nows ==> FreshAt(node, group, all, now)
    ensures var ts' := AfterRecords(node, ts, UnpackOf(p).objs, true, nows);
            || (node.transactions && ts' == ts)
            || JoinedAll(TableOf(ts, group), rows, TableOf(ts', group))
  {
    hide UnpackOf, PackRows, FreshAt, Peaceful, PeerCheck, ApplyAll, JoinedAll, LastCode;
    PackDelivers(node, group, all, p, rows);
    ApplyAllJoins(node, ts, group, all, rows, nows);
  }

  // Which records of a pack are kept.

  /** In a tidy table a row is covered exactly when the row found under its key is as new. */
  lemma CoveredMeans(t: Table, r: Row)
    requires Tidy(t)
    ensures Dominated(t, r) <==> FindKey(t, r.key).Some? && r.hash.AtMost(FindKey(t, r.key).value.hash)
  {
    if Dominated(t, r) {
      var x :| x in t && x.key == r.key && r.hash.AtMost(x.hash);
      TidyFind(t, x);
    } else {
      var x := FindKey(t, r.key);
      assert x.Some? ==> x.value in t && x.value.key == r.key;
    }
  }

  /** What one application of a record in play changes in the lookups, and its code. */
  lemma ApplyFinds(node: Node, ts: Tables, group: bytes, all: set<Row>, r: Row, now: u64)
    requires Peaceful(node, group, all) && FreshAt(node, group, all, now) && Within(TableOf(ts, group), all) && r in all
    ensures Plain(ObjOf(group, r))
    ensures var a, t := Apply(node, ts, ObjOf(group, r), now), TableOf(ts, group); var t' := TableOf(a.tables, group);
            && Within(t', all) && (a.code == RC_SUCCESS <==> !Dominated(t, r))
            && FindKey(t', r.key) == (if Dominated(t, r) then FindKey(t, r.key) else Some(r))
            && forall k :: k != r.key ==> FindKey(t', k) == FindKey(t, k)
  {
    hide Store, Check, Sign, Covers, FindKey;
    var t, o := TableOf(ts, group), ObjOf(group, r);
    DecideInPlay(node, ts, group, all, r, now);
    DecideCovered(node, ts, group, all, r, now);
    assert Exchangeable(node, group, r) && WellKept(r);
    RowOfObj(group, r);
    if !Dominated(t, r) {
      hide Decide;
      StoreKeeps(t, o);
      assert DriverApply(ts, o) == (RC_SUCCESS, ts[group := Store(t, o)]);
    }
  }

  lemma DecideCovered(node: Node, ts: Tables, group: bytes, all: set<Row>, r: Row, now: u64)
    requires Peaceful(node, group, all) && FreshAt(node, group, all, now) && Within(TableOf(ts, group), all) && r in all
    ensures Plain(ObjOf(group, r))
    ensures var t, v := TableOf(ts, group), Decide(node, ts, ObjOf(group, r), now);
            && (!Dominated(t, r) ==> v == Accept(ObjOf(group, r)) && Get(t, r.hash).None?)
            && (Dominated(t, r) ==> v.Reject? && v.code != RC_SUCCESS)
  {
    hide Decide, Peaceful, FreshAt, Tidy;
    var t := TableOf(ts, group);
    DecideInPlay(node, ts, group, all, r, now);
    RejectsWithCode(node, ts, ObjOf(group, r), now);
    CoveredMeans(t, r);
    PeacefulDistinct(node, group, all);
    WithinAscends(t, all);
    GetMeans(t, r.hash);
    if Get(t, r.hash).Some? {
      assert Get(t, r.hash).value == r;
      SelfCovered(t, r);
    }
  }

  lemma RejectsWithCode(node: Node, ts: Tables, o: StoreObj, now: u64)
    requires Fits(o)
    ensures var v := Decide(node, ts, o, now); v.Reject? ==> v.code != RC_SUCCESS
  {
    hide Compare, Covers, Expired;
  }

  lemma WithinAscends(t: Table, all: set<Row>)
    requires Within(t, all)
    ensures Ascending(t)
  {
  }

  lemma SelfCovered(t: Table, r: Row)
    requires r in t
    ensures Dominated(t, r)
  {
    assert r.key == r.key && r.hash.AtMost(r.hash);
  }

  /** No two rows have the same key. */
  ghost predicate OneOfEach(rows: Table) {
    forall i, j :: 0 <= i < j < |rows| ==> rows[i].key != rows[j].key
  }

  /** The lookups after a list: a row that the table did not cover is found, and nothing else changes. */
  ghost predicate Takes(t: Table, rows: Table, t': Table) {
    && (forall r :: r in rows ==> FindKey(t', r.key) == if Dominated(t, r) then FindKey(t, r.key) else Some(r))
    && (forall k :: (forall r :: r in rows ==> r.key != k) ==> FindKey(t', k) == FindKey(t, k))
  }

  lemma {:induction false} ApplyAllTakes(node: Node, ts: Tables, group: bytes, all: set<Row>, rows: Table,
                                         nows: seq<u64>)
    requires Peaceful(node, group, all) && Within(TableOf(ts, group), all) && |rows| == |nows| && OneOfEach(rows)
    requires forall r :: r in rows ==> r in all
    requires forall now :: now in nows ==> FreshAt(node, group, all, now)
    ensures forall o :: o in Objs(group, rows) ==> Fits(o)
    ensures var t := TableOf(ApplyAll(node, ts, Objs(group, rows), nows), group);
            Within(t, all) && Takes(TableOf(ts, group), rows, t)
    ensures rows != [] ==> (LastCode(node, ts, Objs(group, rows), nows) == RC_SUCCESS
                            <==> !Dominated(TableOf(ts, group), rows[|rows| - 1]))
  {
    hide Apply, FreshAt, Peaceful, Dominated, Within, Fits, FindKey, ApplyAll, LastCode, Takes, OneOfEach, Objs;
    RowsFit(node, group, all, rows);
    var t := TableOf(ts, group);
    if rows == [] {
      TakesNothing(node, ts, group);
    } else {
      var k := |rows| - 1;
      var r, init := rows[k], rows[..k];
      OneOfEachInit(rows);
      ApplyAllTakes(node, ts, group, all, init, nows[..k]);
      ApplyLast(node, ts, group, rows, nows);
      var ts1 := ApplyAll(node, ts, Objs(group, init), nows[..k]);
      ApplyFinds(node, ts1, group, all, r, nows[k]);
      var t1, t2 := TableOf(ts1, group), TableOf(Apply(node, ts1, ObjOf(group, r), nows[k]).tables, group);
      TakesElsewhere(t, init, t1, r.key);
      SameCover(t, t1, all, r);
      TakesStep(t, init, t1, r, t2);
    }
  }

  lemma TakesNothing(node: Node, ts: Tables, group: bytes)
    ensures Objs(group, []) == [] && ApplyAll(node, ts, [], []) == ts
         && Takes(TableOf(ts, group), [], TableOf(ts, group))
  {
    hide Dominated, FindKey;
  }

  lemma OneOfEachInit(rows: Table)
    requires rows != [] && OneOfEach(rows)
    ensures var k := |rows| - 1; OneOfEach(rows[..k]) && forall x :: x in rows[..k] ==> x.key != rows[k].key
    ensures rows == rows[..|rows| - 1] + [rows[|rows| - 1]]
  {
  }

  lemma TakesElsewhere(t: Table, rows: Table, t': Table, key: bytes)
    requires Takes(t, rows, t') && forall r :: r in rows ==> r.key != key
    ensures FindKey(t', key) == FindKey(t, key)
  {
    hide Dominated, FindKey;
  }

  lemma ApplyLast(node: Node, ts: Tables, group: bytes, rows: Table, nows: seq<u64>)
    requires rows != [] && |rows| == |nows| && forall o :: o in Objs(group, rows) ==> Fits(o)
    ensures var k := |rows| - 1;
            && (forall o :: o in Objs(group, rows[..k]) ==> Fits(o)) && Fits(ObjOf(group, rows[k]))
            && var a := Apply(node, ApplyAll(node, ts, Objs(group, rows[..k]), nows[..k]), ObjOf(group, rows[k]),
                              nows[k]);
            && ApplyAll(node, ts, Objs(group, rows), nows) == a.tables
            && LastCode(node, ts, Objs(group, rows), nows) == a.code
  {
    hide Apply, Fits;
    var k := |rows| - 1;
    assert Objs(group, rows)[..k] == Objs(group, rows[..k]);
    assert Objs(group, rows)[k] == ObjOf(group, rows[k]);
  }

  lemma SameCover(t: Table, u: Table, all: set<Row>, r: Row)
    requires Within(t, all) && Within(u, all) && FindKey(t, r.key) == FindKey(u, r.key)
    ensures Dominated(t, r) <==> Dominated(u, r)
  {
    hide Dominated, FindKey, Tidy;
    CoveredMeans(t, r);
    CoveredMeans(u, r);
  }

  lemma TakesStep(t: Table, init: Table, t1: Table, r: Row, t2: Table)
    requires Takes(t, init, t1) && (forall x :: x in init ==> x.key != r.key)
    requires FindKey(t2, r.key) == if Dominated(t, r) then FindKey(t, r.key) else Some(r)
    requires forall k :: k != r.key ==> FindKey(t2, k) == FindKey(t1, k)
    ensures Takes(t, init + [r], t2)
  {
    hide Dominated, FindKey;
    forall k | forall x :: x in init + [r] ==> x.key != k ensures FindKey(t2, k) == FindKey(t, k) {
      assert r in init + [r];
      assert forall x :: x in init ==> x in init + [r];
    }
  }

  /**
   A pack of the missing rows is kept: always without transactions,
   else if it has one row or the last one is news.
   */
  ghost predicate Commits(node: Node, t: Table, rows: Table) {
    !node.transactions || |rows| <= 1 || !Dominated(t, rows[|rows| - 1])
  }

  /** The tables after such a pack, row by row. */
  lemma PackTakes(node: Node, group: bytes, all: set<Row>, ts: Tables, p: Pack, rows: Table, nows: seq<u64>)
    requires Peaceful(node, group, all) && Within(TableOf(ts, group), all) && forall r :: r in rows ==> r in all
    requires 1 <= |rows| <= KEYS_PAGE && p == PackRows(group, rows) && OneOfEach(rows)
    requires UnpackOf(p).Delivered? && |nows| == |UnpackOf(p).objs|
          && forall now :: now in nows ==> FreshAt(node, group, all, now)
    ensures var t, t' := TableOf(ts, group), TableOf(AfterRecords(node, ts, UnpackOf(p).objs, true, nows), group);
            Within(t', all) && if Commits(node, t, rows) then Takes(t, rows, t') else t' == t
  {
    hide UnpackOf, PackRows, FreshAt, Peaceful, PeerCheck, ApplyAll, Takes, LastCode, Within, Dominated;
    PackDelivers(node, group, all, p, rows);
    ApplyAllTakes(node, ts, group, all, rows, nows);
  }

  /**
   One pack over a driver with transactions: its rows are all covered afterwards exactly when it
   has one row only, its last row is news, or there was no news in it at all.
   */
  lemma PackJoinsIff(node: Node, group: bytes, all: set<Row>, ts: Tables, p: Pack, rows: Table, nows: seq<u64>)
    requires Peaceful(node, group, all) && Within(TableOf(ts, group), all) && forall r :: r in rows ==> r in all
    requires 1 <= |rows| <= KEYS_PAGE && p == PackRows(group, rows) && OneOfEach(rows) && node.transactions
    requires UnpackOf(p).Delivered? && |nows| == |UnpackOf(p).objs|
          && forall now :: now in nows ==> FreshAt(node, group, all, now)
    ensures var t, ts' := TableOf(ts, group), AfterRecords(node, ts, UnpackOf(p).objs, true, nows);
            JoinedAll(t, rows, TableOf(ts', group))
            <==> |rows| == 1 || !Dominated(t, rows[|rows| - 1]) || forall r :: r in rows ==> Dominated(t, r)
  {
    hide UnpackOf, PackRows, FreshAt, Peaceful, AfterRecords, Dominated, Tidy;
    var t, ts' := TableOf(ts, group), AfterRecords(node, ts, UnpackOf(p).objs, true, nows);
    PackJoins(node, group, all, ts, p, rows, nows);
    PackTakes(node, group, all, ts, p, rows, nows);
    var t' := TableOf(ts', group);
    if Commits(node, t, rows) {
      TakesJoins(t, rows, t', all);
    }
  }

  lemma TakesJoins(t: Table, rows: Table, t': Table, all: set<Row>)
    requires Within(t, all) && Within(t', all) && Takes(t, rows, t')
    ensures JoinedAll(t, rows, t')
  {
    hide FindKey;
    forall r | r in rows ensures Dominated(t', r) {
      CoveredMeans(t, r);
      CoveredMeans(t', r);
    }
    forall y | Dominated(t, y) ensures Dominated(t', y) {
      CoveredMeans(t, y);
      CoveredMeans(t', y);
      if r :| r in rows && r.key == y.key {
        CoveredMeans(t, r);
      }
    }
    forall x | x in t' ensures x in t || x in rows {
      TidyFind(t', x);
      FoundIsIn(t, x.key);
      if r :| r in rows && r.key == x.key {
        assert x == r || FindKey(t, x.key) == Some(x);
      }
    }
  }

  lemma FoundIsIn(t: Table, key: bytes)
    ensures FindKey(t, key).Some? ==> FindKey(t, key).value in t
  {
  }

  lemma RowsFit(node: Node, group: bytes, all: set<Row>, rows: Table)
    requires Peaceful(node, group, all) && forall r :: r in rows ==> r in all
    ensures forall o :: o in Objs(group, rows) ==> Fits(o)
  {
    hide Check, MayReplace, Packable, Printable, ObjOf;
    forall o | o in Objs(group, rows) ensures Fits(o) {
      var i :| 0 <= i < |rows| && Objs(group, rows)[i] == o;
      assert rows[i] in rows && Exchangeable(node, group, rows[i]);
    }
  }

  lemma JoinNothing(t: Table)
    requires Tidy(t)
    ensures JoinedAll(t, [], t)
  {
  }

  /** The table holds exactly the newest record of every key in play. */
  ghost predicate Newest(t: Table, all: set<Row>) {
    && Ascending(t)
    && forall x :: x in t <==> x in all && forall r :: r in all && r.key == x.key ==> r.hash.AtMost(x.hash)
  }

  /** A table within the records in play that dominates them all holds the newest of each key. */
  lemma MergeIsNewest(t: Table, all: set<Row>)
    requires Within(t, all) && Distinct(all) && forall r :: r in all ==> Dominated(t, r)
    ensures Newest(t, all)
  {
    forall x ensures x in t <==> x in all && forall r :: r in all && r.key == x.key ==> r.hash.AtMost(x.hash) {
      if x in t {
        forall r | r in all && r.key == x.key ensures r.hash.AtMost(x.hash) {
          var y :| y in t && y.key == r.key && r.hash.AtMost(y.hash);
          assert y == x;
        }
      }
      if x in all && forall r :: r in all && r.key == x.key ==> r.hash.AtMost(x.hash) {
        var y :| y in t && y.key == x.key && x.hash.AtMost(y.hash);
        assert y in all;
      }
    }
  }

  lemma NewestIsUnique(t: Table, u: Table, all: set<Row>)
    requires Newest(t, all) && Newest(u, all)
    ensures t == u
  {
    SameRowsSameTable(t, u);
  }

  /**
   Order independence: applying records of a group in any order, with repeats, gives one
   table: the newest record of each key among those applied and those already there.
   */
  lemma OrderIndependent(node: Node, ts: Tables, group: bytes, rows: Table, nows: seq<u64>, rows': Table,
                         nows': seq<u64>)
    requires |rows| == |nows| && |rows'| == |nows'| && Rows(rows) == Rows(rows') && Tidy(TableOf(ts, group))
    requires Peaceful(node, group, Rows(TableOf(ts, group)) + Rows(rows))
    requires forall now :: now in nows || now in nows' ==>
               FreshAt(node, group, Rows(TableOf(ts, group)) + Rows(rows), now)
    ensures forall o :: o in Objs(group, rows) || o in Objs(group, rows') ==> Fits(o)
    ensures var t, t' := TableOf(ApplyAll(node, ts, Objs(group, rows), nows), group),
                         TableOf(ApplyAll(node, ts, Objs(group, rows'), nows'), group);
            t == t' && Newest(t, Rows(TableOf(ts, group)) + Rows(rows))
  {
    hide ApplyAll, FreshAt, Peaceful, Newest, Tidy, Fits;
    var t0 := TableOf(ts, group);
    ApplyAllMerges(node, ts, group, rows, nows);
    ApplyAllMerges(node, ts, group, rows', nows');
    NewestIsUnique(TableOf(ApplyAll(node, ts, Objs(group, rows), nows), group),
                   TableOf(ApplyAll(node, ts, Objs(group, rows'), nows'), group), Rows(t0) + Rows(rows));
  }

  lemma ApplyAllMerges(node: Node, ts: Tables, group: bytes, rows: Table, nows: seq<u64>)
    requires |rows| == |nows| && Tidy(TableOf(ts, group))
    requires Peaceful(node, group, Rows(TableOf(ts, group)) + Rows(rows))
    requires forall now :: now in nows ==> FreshAt(node, group, Rows(TableOf(ts, group)) + Rows(rows), now)
    ensures forall o :: o in Objs(group, rows) ==> Fits(o)
    ensures Newest(TableOf(ApplyAll(node, ts, Objs(group, rows), nows), group), Rows(TableOf(ts, group)) + Rows(rows))
  {
    hide ApplyAll, FreshAt, Peaceful, Tidy, Fits, JoinedAll, Newest;
    var t0 := TableOf(ts, group);
    ApplyAllJoins(node, ts, group, Rows(t0) + Rows(rows), rows, nows);
    PeacefulDistinct(node, group, Rows(t0) + Rows(rows));
    JoinedAllIsNewest(t0, rows, TableOf(ApplyAll(node, ts, Objs(group, rows), nows), group));
  }

  lemma PeacefulDistinct(node: Node, group: bytes, all: set<Row>)
    requires Peaceful(node, group, all)
    ensures Distinct(all)
  {
    hide Exchangeable, MayReplace, Printable;
  }

  lemma JoinedAllIsNewest(t0: Table, rows: Table, t: Table)
    requires JoinedAll(t0, rows, t) && Distinct(Rows(t0) + Rows(rows))
    ensures Newest(t, Rows(t0) + Rows(rows))
  {
    hide Newest;
    var all := Rows(t0) + Rows(rows);
    forall r | r in all ensures Dominated(t, r) {
      if r in t0 {
        assert Dominated(t0, r);
      }
    }
    hide Dominated;
    MergeIsNewest(t, all);
  }

  /**
   Two records of one key, otherwise acceptable: the order in which they arrive is irrelevant
   exactly when the signer of the newer one may replace the older one.
   */
  lemma TwoRecordsCommuteIff(node: Node, ts: Tables, group: bytes, older: Row, newer: Row, now: u64)
    requires node.crypto.Sound() && 1 <= |group| < GROUP_NAME_SIZE_MAX && Printable(group) && TableOf(ts, group) == []
    requires Exchangeable(node, group, older) && Exchangeable(node, group, newer)
          && FreshAt(node, group, {older, newer}, now)
    requires older.key == newer.key && older.hash.Less(newer.hash)
    ensures Fits(ObjOf(group, older)) && Fits(ObjOf(group, newer))
    ensures var (a, b) := (ObjOf(group, older), ObjOf(group, newer));
            ApplyAll(node, ts, [a, b], [now, now]) == ApplyAll(node, ts, [b, a], [now, now])
            <==> MayReplace(node, group, newer, older)
  {
    hide Check, Covers, Sign, Expired, Apply, Store;
    var a, b := ObjOf(group, older), ObjOf(group, newer);
    ApplyTwice(node, ts, a, b, now);
    ApplyTwice(node, ts, b, a, now);
    var ts1 := FirstOf(node, ts, group, older, now);
    var ts2 := FirstOf(node, ts, group, newer, now);
    SecondNewer(node, ts1, group, older, newer, now);
    SecondOlder(node, ts2, group, older, newer, now);
    assert TableOf(ts1, group) == [older] && TableOf(ts2, group) == [newer];
  }

  lemma ApplyTwice(node: Node, ts: Tables, a: StoreObj, b: StoreObj, now: u64)
    requires Fits(a) && Fits(b)
    ensures ApplyAll(node, ts, [a, b], [now, now]) == Apply(node, Apply(node, ts, a, now).tables, b, now).tables
  {
    hide Apply;
    assert [a, b][..1] == [a] && [now, now][..1] == [now] && [a][..0] == [] && [now][..0] == [];
    assert ApplyAll(node, ts, [a], [now]) == Apply(node, ApplyAll(node, ts, [], []), a, now).tables;
  }

  /** The first record of a key is stored. */
  lemma FirstOf(node: Node, ts: Tables, group: bytes, r: Row, now: u64) returns (ts': Tables)
    requires node.crypto.Sound() && 1 <= |group| < GROUP_NAME_SIZE_MAX && Printable(group) && TableOf(ts, group) == []
    requires Exchangeable(node, group, r) && FreshAt(node, group, {r}, now)
    ensures ts' == Apply(node, ts, ObjOf(group, r), now).tables == ts[group := [r]]
  {
    hide Check, Covers, Sign, Expired;
    ts' := ts[group := [r]];
    RowOfObj(group, r);
    assert r in {r};
  }

  lemma SecondNewer(node: Node, ts: Tables, group: bytes, older: Row, newer: Row, now: u64)
    requires node.crypto.Sound() && Printable(group) && group in ts && ts[group] == [older]
    requires Exchangeable(node, group, older) && Exchangeable(node, group, newer)
          && FreshAt(node, group, {older, newer}, now)
    requires older.key == newer.key && older.hash.Less(newer.hash)
    ensures Apply(node, ts, ObjOf(group, newer), now).tables
         == if MayReplace(node, group, newer, older) then ts[group := [newer]] else ts
  {
    hide Check, Covers, Sign, Expired, Compare, Get, FindKey, Store, Printable;
    RowOfObj(group, newer);
    CompareIsLexicographic(older.hash, newer.hash);
    OneRow(older, newer.hash, newer.key);
    StoreOver(group, older, newer);
    assert newer in {older, newer};
  }

  lemma OneRow(x: Row, h: Hash, key: bytes)
    ensures Get([x], h) == (if x.hash == h then Some(x) else None)
    ensures FindKey([x], key) == (if Matches(x, key) then Some(x) else None)
  {
    assert [x][1..] == [];
  }

  lemma StoreOver(group: bytes, x: Row, r: Row)
    requires WellKept(r) && r.flags < 2 && x.key == r.key && |x.value| + |x.sign| > 0
    ensures Store([x], ObjOf(group, r)) == [r]
  {
    RowOfObj(group, r);
    OneRow(x, x.hash, r.key);
    assert [x][1..] == [];
  }

  lemma SecondOlder(node: Node, ts: Tables, group: bytes, older: Row, newer: Row, now: u64)
    requires node.crypto.Sound() && group in ts && ts[group] == [newer]
    requires Exchangeable(node, group, older) && Exchangeable(node, group, newer)
    requires older.key == newer.key && older.hash.Less(newer.hash)
    ensures Apply(node, ts, ObjOf(group, older), now).tables == ts
  {
    hide Check, Covers, Sign, Expired, Compare, DriverApply, Get, FindKey, Printable;
    RowOfObj(group, older);
    CompareIsLexicographic(newer.hash, older.hash);
    OneRow(newer, older.hash, older.key);
  }
}
