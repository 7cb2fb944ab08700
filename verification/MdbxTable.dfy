/**
 One group table of the MDBX storage engine: rows kept in ascending order of their driver
 hash, looked up by hash directly and by text key with a full scan.
 */
module MdbxTable {
  import opened Bytes
  import opened DriverHash
  import opened Packet

  /** A stored row. The text key is stored with a trailing NUL, which `key` leaves out. */
  datatype Row = Row(hash: Hash, key: bytes, value: bytes, flags: byte, sign: bytes)

  type Table = seq<Row>

  ghost predicate Ascending(t: Table) {
    forall i, j :: 0 <= i < j < |t| ==> t[i].hash.Less(t[j].hash)
  }

  // The engine's own operations on the ordered table.

  /** `mdbx_get`. */
  function Get(t: Table, h: Hash): Option<Row> {
    if t == [] then None
    else if t[0].hash == h then Some(t[0])
    else Get(t[1..], h)
  }

  /** `mdbx_put`: insert at the place the order gives, or overwrite the row with the same hash. */
  function Put(t: Table, r: Row): Table {
    if t == [] then [r]
    else if r.hash.Less(t[0].hash) then [r] + t
    else if r.hash == t[0].hash then [r] + t[1..]
    else [t[0]] + Put(t[1..], r)
  }

  /** `mdbx_del`. */
  function Del(t: Table, h: Hash): Table {
    if t == [] then []
    else if t[0].hash == h then t[1..]
    else [t[0]] + Del(t[1..], h)
  }

  /** The rows strictly above h, where a cursor set with `MDBX_SET_UPPERBOUND` starts. */
  function Above(t: Table, h: Hash): Table {
    if t == [] || h.Less(t[0].hash) then t else Above(t[1..], h)
  }

  lemma {:induction false} GetMeans(t: Table, h: Hash)
    requires Ascending(t)
    ensures Get(t, h).Some? ==> Get(t, h).value in t && Get(t, h).value.hash == h
    ensures forall r :: r in t && r.hash == h ==> Get(t, h) == Some(r)
  {
    if t != [] && t[0].hash != h {
      GetMeans(t[1..], h);
    }
  }

  lemma {:induction false} PutMeans(t: Table, r: Row)
    requires Ascending(t)
    ensures Ascending(Put(t, r))
    ensures forall x :: x in Put(t, r) <==> x == r || (x in t && x.hash != r.hash)
  {
    if t != [] && t[0].hash.Less(r.hash) {
      PutMeans(t[1..], r);
      assert forall x :: x in Put(t[1..], r) ==> t[0].hash.Less(x.hash);
      assert Put(t, r) == [t[0]] + Put(t[1..], r);
      assert forall x :: x in t <==> x == t[0] || x in t[1..];
    } else if t != [] {
      assert forall x :: x in t <==> x == t[0] || x in t[1..];
    }
  }

  lemma {:induction false} DelMeans(t: Table, h: Hash)
    requires Ascending(t)
    ensures Ascending(Del(t, h)) && |t| - 1 <= |Del(t, h)| <= |t|
    ensures forall x :: x in Del(t, h) <==> x in t && x.hash != h
  {
    if t != [] {
      assert forall x :: x in t <==> x == t[0] || x in t[1..];
      if t[0].hash != h {
        DelMeans(t[1..], h);
        assert forall x :: x in Del(t[1..], h) ==> t[0].hash.Less(x.hash);
      }
    }
  }

  /** The order leaves one table for each set of rows. */
  lemma {:induction false} SameRowsSameTable(t: Table, u: Table)
    requires Ascending(t) && Ascending(u)
    requires forall x :: x in t <==> x in u
    ensures t == u
  {
    assert t != [] ==> t[0] in u;
    assert u != [] ==> u[0] in t;
    if t != [] && u != [] {
      assert t[0] == u[0];
      assert forall x :: x in t <==> x == t[0] || x in t[1..];
      assert forall x :: x in u <==> x == u[0] || x in u[1..];
      assert t[0] !in t[1..] && u[0] !in u[1..];
      SameRowsSameTable(t[1..], u[1..]);
    }
  }

  // The driver's view of a row.

  /** `s_get_obj_by_text_key`: a row without value and signature is not longer than its key and never matches. */
  predicate Matches(r: Row, key: bytes) {
    r.key == key && |r.value| + |r.sign| > 0
  }

  /** The first row, in hash order, that matches the text key. */
  function FindKey(t: Table, key: bytes): (r: Option<Row>)
    ensures r.Some? ==> r.value in t && Matches(r.value, key)
    ensures r.None? ==> forall x :: x in t ==> !Matches(x, key)
  {
    if t == [] then None
    else if Matches(t[0], key) then Some(t[0])
    else FindKey(t[1..], key)
  }

  /** `dap_global_db_driver_hash_get`. */
  function HashOf(o: StoreObj): Hash { Hash(o.timestamp, o.crc) }

  const STORED_KEY_MAX: nat := KEY_SIZE_MAX - 1

  /** The row written for a record: long keys are cut, the NEW flag is not stored. */
  function RowOf(o: StoreObj): Row {
    var key := if |o.key| <= STORED_KEY_MAX then o.key else o.key[..STORED_KEY_MAX];
    Row(HashOf(o), key, o.value, ClearNew(o.flags), o.sign)
  }

  /** `s_fill_store_obj`: the record read back from a row. */
  function ObjOf(group: bytes, r: Row): StoreObj {
    StoreObj(group, r.key, r.value, r.flags, r.sign, r.hash.ts, r.hash.crc)
  }

  /** Writing a record over the row with the same text key, if the scan finds one. */
  function Store(t: Table, o: StoreObj): Table {
    var prior := FindKey(t, o.key);
    Put(if prior.Some? then Del(t, prior.value.hash) else t, RowOf(o))
  }

  /** The record can be found again under its key once it is stored. */
  predicate Findable(o: StoreObj) {
    |o.key| <= STORED_KEY_MAX && |o.value| + |o.sign| > 0
  }

  lemma StoreMeans(t: Table, o: StoreObj)
    requires Ascending(t)
    ensures var prior := FindKey(t, o.key);
            && Ascending(Store(t, o))
            && forall x :: x in Store(t, o) <==>
                 x == RowOf(o) || (x in t && x.hash != HashOf(o) && (prior.Some? ==> x.hash != prior.value.hash))
  {
    var prior := FindKey(t, o.key);
    if prior.Some? {
      DelMeans(t, prior.value.hash);
      PutMeans(Del(t, prior.value.hash), RowOf(o));
    } else {
      PutMeans(t, RowOf(o));
    }
  }

  // Refinement: the table as a plain map from text keys to rows.

  type Index = map<bytes, Row>

  /** The table and the map agree on key lookups and on the set of hashes, with one row for each key. */
  ghost predicate Refines(t: Table, m: Index) {
    && Ascending(t)
    && (forall r :: r in t ==> r.key in m && m[r.key] == r)
    && (forall k :: k in m ==> FindKey(t, k) == Some(m[k]))
  }

  /** In a table that refines a map, lookups are the map's. */
  lemma RefinedLookups(t: Table, m: Index, key: bytes, h: Hash)
    requires Refines(t, m)
    ensures FindKey(t, key) == if key in m then Some(m[key]) else None
    ensures Get(t, h).Some? <==> exists k :: k in m && m[k].hash == h
    ensures forall r, s :: r in t && s in t && r.key == s.key ==> r == s
  {
    GetMeans(t, h);
    if Get(t, h).Some? {
      var r := Get(t, h).value;
      assert r.key in m && m[r.key].hash == h;
    }
    if k :| k in m && m[k].hash == h {
      assert FindKey(t, k) == Some(m[k]);
    }
  }

  /** No other key holds a row with the record's hash. */
  ghost predicate FreshHash(m: Index, o: StoreObj) {
    forall k :: k in m && m[k].hash == HashOf(o) ==> k == o.key
  }

  /** After a store, the record's row is the only one under its key. */
  lemma OneRowAfterStore(t: Table, m: Index, o: StoreObj, x: Row)
    requires Refines(t, m) && x in Store(t, o) && x.key == o.key
    ensures x == RowOf(o)
  {
    StoreMeans(t, o);
    if x in t {
      assert FindKey(t, o.key) == Some(x);
    }
  }

  lemma FindAfterStore(t: Table, m: Index, o: StoreObj, k: bytes)
    requires Refines(t, m) && FreshHash(m, o) && Findable(o)
    requires k == o.key || k in m
    ensures FindKey(Store(t, o), k) == Some(if k == o.key then RowOf(o) else m[k])
  {
    var t', prior := Store(t, o), FindKey(t, o.key);
    StoreMeans(t, o);
    if k == o.key {
      assert RowOf(o) in t' && Matches(RowOf(o), k);
      OneRowAfterStore(t, m, o, FindKey(t', k).value);
    } else {
      assert FindKey(t, k) == Some(m[k]);
      assert m[k] in t && Matches(m[k], k);
      GetMeans(t, m[k].hash);
      assert m[k] in t';
    }
  }

  /**
   Storing a record is a map update exactly when the record can be found again and its hash
   is not taken by another key.
   */
  lemma StoreRefinesIff(t: Table, m: Index, o: StoreObj)
    requires Refines(t, m)
    ensures Refines(Store(t, o), m[o.key := RowOf(o)]) <==> Findable(o) && FreshHash(m, o)
  {
    var t', m' := Store(t, o), m[o.key := RowOf(o)];
    StoreMeans(t, o);
    if Findable(o) && FreshHash(m, o) {
      forall k | k in m' ensures FindKey(t', k) == Some(m'[k]) {
        FindAfterStore(t, m, o, k);
      }
      forall r | r in t' ensures r.key in m' && m'[r.key] == r {
        if r.key == o.key {
          OneRowAfterStore(t, m, o, r);
        }
      }
    }
    if Refines(t', m') {
      assert FindKey(t', o.key) == Some(RowOf(o));
      assert Findable(o);
      forall k | k in m && m[k].hash == HashOf(o) ensures k == o.key {
        var r := m'[k];
        assert FindKey(t', k) == Some(r);
        assert r == RowOf(o);
      }
    }
  }

  /** Erasing a row by hash removes its key from the map. */
  lemma EraseRefines(t: Table, m: Index, h: Hash)
    requires Refines(t, m)
    ensures Refines(Del(t, h), map k | k in m && m[k].hash != h :: m[k])
  {
    var t', m' := Del(t, h), map k | k in m && m[k].hash != h :: m[k];
    DelMeans(t, h);
    forall k | k in m' ensures FindKey(t', k) == Some(m'[k]) {
      assert FindKey(t, k) == Some(m[k]);
      assert m[k] in t' && Matches(m[k], k);
      var found := FindKey(t', k);
      assert found.Some? && found.value in t && m[found.value.key] == found.value;
    }
  }

  // Whole runs of driver writes.

  datatype Write = Keep(obj: StoreObj) | Erase(hash: Hash)

  function RunTable(t: Table, ws: seq<Write>): Table
    decreases |ws|
  {
    if ws == [] then t
    else RunTable(match ws[0] case Keep(o) => Store(t, o) case Erase(h) => Del(t, h), ws[1..])
  }

  function RunMap(m: Index, ws: seq<Write>): Index
    decreases |ws|
  {
    if ws == [] then m
    else RunMap(match ws[0]
                case Keep(o) => m[o.key := RowOf(o)]
                case Erase(h) => map k | k in m && m[k].hash != h :: m[k], ws[1..])
  }

  /** Every record written can be found again, and brings a hash that no other key holds. */
  ghost predicate WellBehaved(m: Index, ws: seq<Write>)
    decreases |ws|
  {
    ws == [] ||
    match ws[0]
    case Keep(o) => Findable(o) && FreshHash(m, o) && WellBehaved(m[o.key := RowOf(o)], ws[1..])
    case Erase(h) => WellBehaved(map k | k in m && m[k].hash != h :: m[k], ws[1..])
  }

  /** After any such run the table still refines the map that took the same writes. */
  lemma {:induction false} RunRefines(t: Table, m: Index, ws: seq<Write>)
    requires Refines(t, m) && WellBehaved(m, ws)
    ensures Refines(RunTable(t, ws), RunMap(m, ws))
    decreases |ws|
  {
    if ws != [] {
      match ws[0] {
        case Keep(o) =>
          StoreRefinesIff(t, m, o);
          RunRefines(Store(t, o), m[o.key := RowOf(o)], ws[1..]);
        case Erase(h) =>
          EraseRefines(t, m, h);
          RunRefines(Del(t, h), map k | k in m && m[k].hash != h :: m[k], ws[1..]);
      }
    }
  }
}
