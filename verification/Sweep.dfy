/** The periodic removal of records that outlived their cluster's time to live. */
module Sweep {
  import opened Bytes
  import opened DriverHash
  import opened Packet
  import opened MdbxTable
  import opened MdbxDriver
  import opened GlobalDb

  /** A table as the driver leaves it when every record written can be found again. */
  ghost predicate Tidy(t: Table) {
    && ValidTable(t)
    && (forall r :: r in t ==> |r.value| + |r.sign| > 0)
    && (forall r, s :: r in t && s in t && r.key == s.key ==> r == s)
  }

  lemma TidyFind(t: Table, r: Row)
    requires Tidy(t) && r in t
    ensures FindKey(t, r.key) == Some(r)
  {
    assert Matches(r, r.key);
  }

  lemma TidyDel(t: Table, h: Hash)
    requires Tidy(t)
    ensures Tidy(Del(t, h))
  {
    DelMeans(t, h);
  }

  /** The sweep's rules for one cluster: its time to live, and whether the group is a local one. */
  datatype Rules = Rules(ttl: u64, local: bool) {
    /** Records the sweep erases: expired ones, or tombstones of a local group without time to live. */
    predicate Doomed(flags: byte, timestamp: u64, now: u64) {
      !IsPinned(flags) && if ttl != 0 then Expired(ttl, timestamp, now) else IsDel(flags) && local
    }

    /** Records are read below this timestamp, in 64-bit arithmetic. */
    function Bound(now: u64): u64 { (now - ttl) % TWO_TO_64 }

    predicate Read(h: Hash, now: u64) { h.Less(Hash(Bound(now), TWO_TO_64 - 1)) }
  }

  function AsErase(o: StoreObj): StoreObj {
    o.(flags := if IsErase(o.flags) then o.flags else o.flags + 128)
  }

  function SweepObjs(rules: Rules, ts: Tables, objs: seq<StoreObj>, now: u64): Tables {
    if objs == [] then ts
    else
      var k := |objs| - 1;
      var ts' := SweepObjs(rules, ts, objs[..k], now);
      if rules.Doomed(objs[k].flags, objs[k].timestamp, now) then DriverApply(ts', AsErase(objs[k])).1 else ts'
  }

  /** One turn of the sweep's loop: read a page, erase what is doomed in it. */
  function Pass(rules: Rules, group: bytes, ts: Tables, now: u64): Tables {
    SweepObjs(rules, ts, BelowPage(group, TableOf(ts, group), rules.Bound(now), COUNT_PAGE), now)
  }

  lemma PageWellSized(group: bytes, t: Table, timestamp: u64)
    requires ValidTable(t)
    ensures forall o :: o in BelowPage(group, t, timestamp, COUNT_PAGE) ==> WellSized(o.sign)
  {
    assert WellSized(BLANK_OBJ.sign);
    assert forall i :: 0 <= i < |t| ==> WellKept(t[i]);
    assert forall o :: o in Objs(group, t) ==> WellSized(o.sign);
    assert forall n :: 0 <= n <= |t| ==> Objs(group, t[..n]) == Objs(group, t)[..n];
  }

  lemma SweepNext(rules: Rules, ts: Tables, objs: seq<StoreObj>, i: nat, now: u64)
    requires i < |objs|
    ensures var ts' := SweepObjs(rules, ts, objs[..i], now);
            SweepObjs(rules, ts, objs[..i + 1], now)
            == if rules.Doomed(objs[i].flags, objs[i].timestamp, now) then DriverApply(ts', AsErase(objs[i])).1 else ts'
  {
    hide DriverApply, AsErase;
    assert objs[..i + 1][..i] == objs[..i];
  }

  lemma SweepNothing(rules: Rules, group: bytes, ts: Tables, now: u64)
    ensures SweepObjs(rules, ts, [], now) == ts && BelowPage(group, [], rules.Bound(now), COUNT_PAGE) == []
  {
  }

  /** The loop body of `s_clean_old_obj_gdb_callback` for one group; returns the number of records read. */
  method CleanPass(db: Db, rules: Rules, group: bytes, now: u64) returns (count: nat)
    requires db.Valid()
    modifies db.driver`tables
    ensures db.Valid()
    ensures count == |BelowPage(group, TableOf(old(db.driver.tables), group), rules.Bound(now), COUNT_PAGE)|
    ensures db.driver.tables == Pass(rules, group, old(db.driver.tables), now)
  {
    hide SweepObjs, DriverApply, BelowPage, Rules.Doomed, WellSized, ValidTable;
    var page := db.driver.ReadBelow(group, rules.Bound(now));
    count := |page|;
    var i := 0;
    SweepNothing(rules, group, db.driver.tables, now);
    assert page[..i] == [];
    if group in db.driver.tables {
      PageWellSized(group, db.driver.tables[group], rules.Bound(now));
    }
    while i < |page|
      invariant 0 <= i <= |page| && db.Valid()
      invariant db.driver.tables == SweepObjs(rules, old(db.driver.tables), page[..i], now)
    {
      SweepNext(rules, old(db.driver.tables), page, i, now);
      if rules.Doomed(page[i].flags, page[i].timestamp, now) {
        var _ := db.driver.Apply(AsErase(page[i]));
      }
      i := i + 1;
    }
    assert page[..i] == page;
  }

  // What a pass does to the table.

  /** Removing the doomed rows among the first n. */
  function Swept(rules: Rules, t: Table, n: nat, now: u64): Table
    requires n <= |t|
  {
    if n == 0 then t
    else if rules.Doomed(t[n - 1].flags, t[n - 1].hash.ts, now) then Del(Swept(rules, t, n - 1, now), t[n - 1].hash)
    else Swept(rules, t, n - 1, now)
  }

  lemma {:induction false} SweptMeans(rules: Rules, t: Table, n: nat, now: u64)
    requires Tidy(t) && n <= |t|
    ensures Tidy(Swept(rules, t, n, now))
    ensures forall x ::
              x in Swept(rules, t, n, now) <==> x in t && !(x in t[..n] && rules.Doomed(x.flags, x.hash.ts, now))
  {
    hide Tidy, Del, Rules.Doomed;
    if n > 0 {
      SweptMeans(rules, t, n - 1, now);
      OneRowLess(t, Swept(rules, t, n - 1, now), t[n - 1]);
      assert forall x :: x in t[..n] <==> x in t[..n - 1] || x == t[n - 1];
    }
  }

  lemma OneRowLess(t: Table, u: Table, r: Row)
    requires Tidy(t) && Tidy(u) && r in t && forall x :: x in u ==> x in t
    ensures Tidy(Del(u, r.hash)) && forall x :: x in Del(u, r.hash) <==> x in u && x != r
  {
    hide WellKept;
    DelMeans(u, r.hash);
    TidyDel(u, r.hash);
    GetMeans(t, r.hash);
  }

  /** Whatever the page, a pass takes away only doomed rows. */
  lemma SweptKeeps(rules: Rules, t: Table, n: nat, now: u64)
    requires Tidy(t) && n <= |t|
    ensures Tidy(Swept(rules, t, n, now))
    ensures forall x :: x in Swept(rules, t, n, now) ==> x in t
    ensures forall x :: x in t && !rules.Doomed(x.flags, x.hash.ts, now) ==> x in Swept(rules, t, n, now)
  {
    SweptMeans(rules, t, n, now);
  }

  /** Erasing a record by the driver deletes its row. */
  lemma EraseRow(ts: Tables, group: bytes, r: Row)
    requires group in ts && Tidy(ts[group]) && Printable(group) && r in ts[group]
    ensures DriverApply(ts, AsErase(ObjOf(group, r))) == (RC_SUCCESS, ts[group := Del(ts[group], r.hash)])
  {
    TidyFind(ts[group], r);
    GetMeans(ts[group], r.hash);
  }

  lemma SweepStep(rules: Rules, group: bytes, ts: Tables, n: nat, now: u64)
    requires group in ts && n <= |ts[group]|
    ensures n == 0 ==>
              && SweepObjs(rules, ts, Objs(group, ts[group][..n]), now) == ts
              && Swept(rules, ts[group], n, now) == ts[group]
    ensures n > 0 ==>
              var t := ts[group]; var r, ts' := t[n - 1], SweepObjs(rules, ts, Objs(group, t[..n - 1]), now);
              if rules.Doomed(r.flags, r.hash.ts, now)
              then SweepObjs(rules, ts, Objs(group, t[..n]), now) == DriverApply(ts', AsErase(ObjOf(group, r))).1
                   && Swept(rules, t, n, now) == Del(Swept(rules, t, n - 1, now), r.hash)
              else SweepObjs(rules, ts, Objs(group, t[..n]), now) == ts'
                   && Swept(rules, t, n, now) == Swept(rules, t, n - 1, now)
  {
    hide DriverApply, AsErase, Del;
    assert n > 0 ==> Objs(group, ts[group][..n])[..n - 1] == Objs(group, ts[group][..n - 1]);
  }

  lemma NotBefore(t: Table, n: nat)
    requires Tidy(t) && n < |t|
    ensures t[n] !in t[..n]
  {
  }

  lemma {:induction false} SweepRows(rules: Rules, group: bytes, ts: Tables, n: nat, now: u64)
    requires group in ts && Tidy(ts[group]) && Printable(group) && n <= |ts[group]|
    ensures SweepObjs(rules, ts, Objs(group, ts[group][..n]), now) == ts[group := Swept(rules, ts[group], n, now)]
  {
    hide DriverApply, AsErase, Del, Tidy, SweepObjs, Swept;
    var t := ts[group];
    SweepStep(rules, group, ts, n, now);
    if n > 0 {
      SweepRows(rules, group, ts, n - 1, now);
      SweptMeans(rules, t, n - 1, now);
      NotBefore(t, n - 1);
      EraseRow(ts[group := Swept(rules, t, n - 1, now)], group, t[n - 1]);
    }
  }

  function Min(a: nat, b: nat): nat { if a < b then a else b }

  /** One pass removes the doomed rows of the page and nothing else. */
  lemma PassMeans(rules: Rules, group: bytes, ts: Tables, now: u64)
    requires group in ts && Tidy(ts[group]) && Printable(group)
    ensures var t := ts[group]; var n := Min(BelowCount(t, Hash(rules.Bound(now), TWO_TO_64 - 1)), COUNT_PAGE);
            Pass(rules, group, ts, now) == ts[group := Swept(rules, t, n, now)]
  {
    var t := ts[group];
    var n := Min(BelowCount(t, Hash(rules.Bound(now), TWO_TO_64 - 1)), COUNT_PAGE);
    SweepRows(rules, group, ts, n, now);
    if n == |t| < COUNT_PAGE && n > 0 {
      assert t[..n] == t;
      var objs := Objs(group, t) + [BLANK_OBJ];
      assert objs[..n] == Objs(group, t);
    }
  }

  /** What is read: records up to now minus the time to live, in 64-bit arithmetic; without one, all up to now. */
  lemma ReadMeans(rules: Rules, h: Hash, now: u64)
    ensures var bound := if rules.ttl <= now then now - rules.ttl else now - rules.ttl + TWO_TO_64;
            rules.Read(h, now) <==> h.ts < bound || (h.ts == bound && h.crc < TWO_TO_64 - 1)
  {
    if rules.ttl <= now {
      assert (now - rules.ttl) % TWO_TO_64 == now - rules.ttl;
    } else {
      assert (now - rules.ttl) % TWO_TO_64 == now - rules.ttl + TWO_TO_64;
    }
  }

  /** What is erased of it: unpinned records past the time to live, or unpinned tombstones of a local group without. */
  lemma DoomedMeans(rules: Rules, r: Row, now: u64)
    requires r.hash.ts + rules.ttl < TWO_TO_64
    ensures rules.Doomed(r.flags, r.hash.ts, now) <==>
            !IsPinned(r.flags) && if rules.ttl > 0 then r.hash.ts + rules.ttl < now else rules.local && IsDel(r.flags)
  {
  }

  /** One pass, row by row: a row goes exactly when it is among the first 256, is read and is doomed. */
  lemma PassRow(rules: Rules, group: bytes, ts: Tables, i: nat, now: u64)
    requires group in ts && Tidy(ts[group]) && Printable(group) && i < |ts[group]|
    ensures var r := ts[group][i];
            r in TableOf(Pass(rules, group, ts, now), group) <==>
            !(i < 256 && rules.Read(r.hash, now) && rules.Doomed(r.flags, r.hash.ts, now))
  {
    hide Pass, Rules.Doomed, Swept;
    var t, bound := ts[group], Hash(rules.Bound(now), TWO_TO_64 - 1);
    var n := Min(BelowCount(t, bound), COUNT_PAGE);
    PassMeans(rules, group, ts, now);
    SweptMeans(rules, t, n, now);
    BelowCountMeans(t, bound);
    if t[i] in t[..n] {
      var j :| 0 <= j < n && t[j] == t[i];
      assert i == j;
    }
    assert i < n ==> t[i] == t[..n][i];
  }

  /** A pass over the local groups, which have no time to live: of a short table only live and pinned rows are left. */
  lemma LocalPass(group: bytes, ts: Tables, r: Row, now: u64)
    requires group in ts && Tidy(ts[group]) && Printable(group) && |ts[group]| <= 256
    requires r in ts[group] && r.hash.ts < now
    ensures r in TableOf(Pass(Rules(0, true), group, ts, now), group) <==> IsPinned(r.flags) || !IsDel(r.flags)
  {
    hide Pass, Tidy, IsPinned, IsDel;
    var i :| 0 <= i < |ts[group]| && ts[group][i] == r;
    PassRow(Rules(0, true), group, ts, i, now);
    ReadMeans(Rules(0, true), r.hash, now);
    DoomedMeans(Rules(0, true), r, now);
  }

  lemma {:induction false} BelowCountMeans(t: Table, h: Hash)
    requires Ascending(t)
    ensures forall i :: 0 <= i < |t| ==> (i < BelowCount(t, h) <==> t[i].hash.Less(h))
  {
    if t != [] && t[0].hash.Less(h) {
      BelowCountMeans(t[1..], h);
      forall i | 0 <= i < |t| ensures i < BelowCount(t, h) <==> t[i].hash.Less(h) {
        if i > 0 {
          assert t[i] == t[1..][i - 1];
        }
      }
    }
  }

  // The loop.

  function Passes(rules: Rules, group: bytes, ts: Tables, now: u64, k: nat): Tables
    decreases k
  {
    if k == 0 then ts else Passes(rules, group, Pass(rules, group, ts, now), now, k - 1)
  }

  /** The loop has ended after k passes: there is nothing left to read. */
  predicate EndsAfter(rules: Rules, group: bytes, ts: Tables, now: u64, k: nat) {
    BelowPage(group, TableOf(Passes(rules, group, ts, now, k), group), rules.Bound(now), COUNT_PAGE) == []
  }

  lemma EndsAtOnce(rules: Rules, group: bytes, ts: Tables, now: u64)
    requires group in ts
    ensures EndsAfter(rules, group, ts, now, 0) <==> BelowCount(ts[group], Hash(rules.Bound(now), TWO_TO_64 - 1)) == 0
  {
  }

  /** A row that is read but never erased: pinned, or exactly as old as the time to live. */
  ghost predicate Stuck(rules: Rules, t: Table, now: u64) {
    exists r :: r in t && rules.Read(r.hash, now) && !rules.Doomed(r.flags, r.hash.ts, now)
  }

  lemma StuckStays(rules: Rules, group: bytes, ts: Tables, now: u64)
    requires group in ts && Tidy(ts[group]) && Printable(group) && Stuck(rules, ts[group], now)
    ensures var ts' := Pass(rules, group, ts, now);
            && group in ts' && Tidy(ts'[group]) && Stuck(rules, ts'[group], now)
            && BelowCount(ts[group], Hash(rules.Bound(now), TWO_TO_64 - 1)) > 0
  {
    hide Pass, Swept;
    var t, bound := ts[group], Hash(rules.Bound(now), TWO_TO_64 - 1);
    var n := Min(BelowCount(t, bound), COUNT_PAGE);
    PassMeans(rules, group, ts, now);
    SweptMeans(rules, t, n, now);
    BelowCountMeans(t, bound);
    hide ValidTable;
    var r :| r in t && rules.Read(r.hash, now) && !rules.Doomed(r.flags, r.hash.ts, now);
    assert r in Swept(rules, t, n, now);
  }

  lemma {:induction false} StuckNeverEnds(rules: Rules, group: bytes, ts: Tables, now: u64, k: nat)
    requires group in ts && Tidy(ts[group]) && Printable(group) && Stuck(rules, ts[group], now)
    ensures !EndsAfter(rules, group, ts, now, k)
    decreases k
  {
    hide BelowPage, Pass, Tidy, Stuck;
    StuckStays(rules, group, ts, now);
    EndsAtOnce(rules, group, ts, now);
    if k > 0 {
      StuckNeverEnds(rules, group, Pass(rules, group, ts, now), now, k - 1);
    }
  }

  /** Every pass that finds something shortens the table, unless a stuck row fills it. */
  lemma PassShortens(rules: Rules, group: bytes, ts: Tables, now: u64)
    requires group in ts && Tidy(ts[group]) && Printable(group) && !Stuck(rules, ts[group], now)
    requires BelowCount(ts[group], Hash(rules.Bound(now), TWO_TO_64 - 1)) > 0
    ensures var ts' := Pass(rules, group, ts, now);
            && group in ts' && Tidy(ts'[group]) && !Stuck(rules, ts'[group], now)
            && |ts'[group]| < |ts[group]|
            && forall x :: x in ts[group] && !rules.Read(x.hash, now) ==> x in ts'[group]
  {
    var t, bound := ts[group], Hash(rules.Bound(now), TWO_TO_64 - 1);
    var n := Min(BelowCount(t, bound), COUNT_PAGE);
    PassMeans(rules, group, ts, now);
    SweptMeans(rules, t, n, now);
    BelowCountMeans(t, bound);
    var t' := Swept(rules, t, n, now);
    assert t[0] in t[..n] && rules.Read(t[0].hash, now) && rules.Doomed(t[0].flags, t[0].hash.ts, now);
    FewerRows(t, t', t[0]);
  }

  /** An ascending table whose rows all lie in another, but for one, is shorter. */
  lemma FewerRows(t: Table, u: Table, gone: Row)
    requires Ascending(t) && Ascending(u) && gone in t && gone !in u && forall x :: x in u ==> x in t
    ensures |u| < |t|
  {
    var rows := set x | x in t;
    var left := set x | x in u;
    RowsCount(t);
    RowsCount(u);
    SmallerSet(left, rows, gone);
  }

  lemma {:induction false} RowsCount(t: Table)
    requires Ascending(t)
    ensures |set x | x in t| == |t|
  {
    if t != [] {
      RowsCount(t[1..]);
      assert (set x | x in t) == {t[0]} + (set x | x in t[1..]);
    }
  }

  lemma SmallerSet(a: set<Row>, b: set<Row>, x: Row)
    requires a <= b && x in b && x !in a
    ensures |a| < |b|
  {
    var b' := b - {x};
    assert a <= b';
    SubsetSize(a, b');
  }

  lemma {:induction false} SubsetSize(a: set<Row>, b: set<Row>)
    requires a <= b
    ensures |a| <= |b|
  {
    if x :| x in a {
      SubsetSize(a - {x}, b - {x});
    }
  }

  /** Without a stuck row the loop ends, and then it has erased exactly what it may read. */
  lemma {:induction false} SweepEnds(rules: Rules, group: bytes, ts: Tables, now: u64) returns (k: nat)
    requires group in ts && Tidy(ts[group]) && Printable(group) && !Stuck(rules, ts[group], now)
    ensures EndsAfter(rules, group, ts, now, k)
    ensures forall x ::
              x in TableOf(Passes(rules, group, ts, now, k), group) <==> x in ts[group] && !rules.Read(x.hash, now)
    decreases |ts[group]|
  {
    hide BelowPage, Pass;
    var t, bound := ts[group], Hash(rules.Bound(now), TWO_TO_64 - 1);
    BelowCountMeans(t, bound);
    EndsAtOnce(rules, group, ts, now);
    if BelowCount(t, bound) == 0 {
      k := 0;
    } else {
      PassShortens(rules, group, ts, now);
      PassKeepsOthers(rules, group, ts, now);
      var k' := SweepEnds(rules, group, Pass(rules, group, ts, now), now);
      k := k' + 1;
    }
  }

  lemma PassKeepsOthers(rules: Rules, group: bytes, ts: Tables, now: u64)
    requires group in ts && Tidy(ts[group]) && Printable(group)
    ensures forall x :: x in TableOf(Pass(rules, group, ts, now), group) ==> x in ts[group]
  {
    PassMeans(rules, group, ts, now);
    SweptMeans(rules, ts[group], Min(BelowCount(ts[group], Hash(rules.Bound(now), TWO_TO_64 - 1)), COUNT_PAGE), now);
  }

  /** While the clock is within range, stuck rows are the expired pinned ones and those exactly at the limit. */
  lemma StuckMeans(rules: Rules, t: Table, now: u64)
    requires 0 < rules.ttl <= now && forall r :: r in t ==> r.hash.ts + rules.ttl < TWO_TO_64
    ensures Stuck(rules, t, now) <==>
            exists r :: r in t && (   (IsPinned(r.flags) && r.hash.ts + rules.ttl < now)
                                   || (r.hash.ts + rules.ttl == now && r.hash.crc < TWO_TO_64 - 1))
  {
    assert rules.Bound(now) == now - rules.ttl;
  }

  /** The sweep loop of a group with a time to live ends exactly when it reads no stuck row. */
  lemma SweepEndsIff(rules: Rules, group: bytes, ts: Tables, now: u64)
    requires rules.ttl != 0 && group in ts && Tidy(ts[group]) && Printable(group)
    ensures (exists k: nat :: EndsAfter(rules, group, ts, now, k)) <==> !Stuck(rules, ts[group], now)
  {
    if Stuck(rules, ts[group], now) {
      forall k: nat ensures !EndsAfter(rules, group, ts, now, k) {
        StuckNeverEnds(rules, group, ts, now, k);
      }
    } else {
      var k := SweepEnds(rules, group, ts, now);
      assert EndsAfter(rules, group, ts, now, k);
    }
  }
}
