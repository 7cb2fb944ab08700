/**
 The MDBX driver: one ordered table for each group, written record by record, scanned by
 text key, paged by hash, and packed by hash for transport.
 */
module MdbxDriver {
  import opened Bytes
  import opened DriverHash
  import opened Packet
  import opened PacketPack
  import opened MdbxTable

  const KEYS_PAGE: nat := 512       // DAP_GLOBAL_DB_COND_READ_KEYS_DEFAULT
  const COUNT_PAGE: nat := 256      // DAP_GLOBAL_DB_COND_READ_COUNT_DEFAULT

  const RC_SUCCESS: int := 0
  const RC_NOT_FOUND: int := 1
  const RC_BROKEN: int := -9
  const RC_ERROR: int := -6
  const EINVAL: int := -22
  const EIO: int := -5
  const MDBX_NOTFOUND: int := -30798
  const MDBX_BUSY: int := -30778
  const MDBX_BAD_TXN: int := -30782

  /** What the driver keeps true of each row it wrote. */
  predicate WellKept(r: Row) {
    1 <= |r.key| <= STORED_KEY_MAX && Printable(r.key) && r.hash.crc != 0 && WellSized(r.sign)
  }

  ghost predicate ValidTable(t: Table) {
    Ascending(t) && forall r :: r in t ==> WellKept(r)
  }

  predicate Printable(s: bytes) {
    forall i :: 0 <= i < |s| ==> 32 <= s[i] < 127
  }

  predicate IsErase(flags: byte) { flags >= 128 }

  type Tables = map<bytes, Table>

  /** The outcome of one driver write: the return code and the tables after it. */
  function DriverApply(ts: Tables, o: StoreObj): (r: (int, Tables))
  {
    if HashOf(o) == BLANK then (RC_SUCCESS, ts)
    else if !Printable(o.key) || !Printable(o.group) then (RC_BROKEN, ts)
    else if o.crc == 0 || o.key == [] then (EINVAL, ts)
    else if IsErase(o.flags) then EraseApply(ts, o)
    else if o.group !in ts && |o.group| > GROUP_NAME_SIZE_MAX then (EIO, ts)
    else
      var t := if o.group in ts then ts[o.group] else [];
      (RC_SUCCESS, ts[o.group := Store(t, o)])
  }

  /** The code of a write names the first condition that fails: the text first, then the checksum and the key. */
  lemma WriteCode(ts: Tables, o: StoreObj)
    requires !IsErase(o.flags)
    ensures DriverApply(ts, o).0
         == if o.timestamp == 0 && o.crc == 0 then 0
            else if exists c :: (c in o.key || c in o.group) && !(32 <= c < 127) then -9
            else if o.crc == 0 || o.key == [] then -22
            else if o.group !in ts && |o.group| > 128 then -5
            else 0
    ensures DriverApply(ts, o).0 != 0 ==> DriverApply(ts, o).1 == ts
  {
    hide Store;
    PrintableMeans(o.key);
    PrintableMeans(o.group);
  }

  lemma PrintableMeans(s: bytes)
    ensures Printable(s) <==> !exists c :: c in s && !(32 <= c < 127)
  {
    if !Printable(s) {
      var i :| 0 <= i < |s| && !(32 <= s[i] < 127);
      assert s[i] in s;
    }
  }

  /** Erasing: by hash when the record carries a timestamp, by text key otherwise. */
  function EraseApply(ts: Tables, o: StoreObj): (r: (int, Tables))
  {
    if o.group !in ts then (RC_NOT_FOUND, ts)
    else
      var t := ts[o.group];
      var found := if o.timestamp != 0 then Some(HashOf(o))
                   else if FindKey(t, o.key).Some? then Some(FindKey(t, o.key).value.hash) else None;
      if found.None? then (MDBX_NOTFOUND, ts)
      else if Get(t, found.value).None? then (RC_NOT_FOUND, ts)
      else (RC_SUCCESS, ts[o.group := Del(t, found.value)])
  }

  /**
   What an erasure removes: the row with the record's hash or, for a record without a time, the row found
   under its key; nothing else, and nothing at all if there is no such row.
   */
  lemma EraseMeans(ts: Tables, o: StoreObj)
    requires IsErase(o.flags) && o.crc != 0 && o.key != [] && Printable(o.key) && Printable(o.group)
    requires o.group in ts && Ascending(ts[o.group])
    ensures var (code, ts') := DriverApply(ts, o);
            var t, y := ts[o.group], FindKey(ts[o.group], o.key);
            var gone := if o.timestamp != 0 then Some(HashOf(o)) else if y.Some? then Some(y.value.hash) else None;
            && ts'.Keys == ts.Keys && (forall g :: g in ts && g != o.group ==> ts'[g] == ts[g])
            && (forall x :: x in ts'[o.group] <==> x in t && Some(x.hash) != gone)
            && (code == RC_SUCCESS <==> exists x :: x in t && Some(x.hash) == gone)
  {
    hide FindKey, Printable;
    var t, y := ts[o.group], FindKey(ts[o.group], o.key);
    if o.timestamp != 0 {
      GetMeans(t, HashOf(o));
      DelMeans(t, HashOf(o));
    } else if y.Some? {
      assert y.value in t;
      GetMeans(t, y.value.hash);
      DelMeans(t, y.value.hash);
    }
  }

  /** Erasing a whole group; the blank hash is skipped and a missing group is no error. */
  function DropApply(ts: Tables, group: bytes, timestamp: u64): (r: (int, Tables))
  {
    if timestamp == 0 then (RC_SUCCESS, ts)
    else if !Printable(group) then (RC_BROKEN, ts)
    else (RC_SUCCESS, ts - {group})
  }

  /** A list of records is written in order up to the first one that fails; an empty list is an error. */
  function DriverApplyAll(ts: Tables, objs: seq<StoreObj>): (r: (int, Tables))
    decreases |objs|
  {
    if objs == [] then (RC_SUCCESS, ts)
    else
      var (rc, ts') := DriverApply(ts, objs[0]);
      if rc != RC_SUCCESS then (rc, ts') else DriverApplyAll(ts', objs[1..])
  }

  /** The page of hashes above `from`: a short page ends with a blank hash as the mark of the end. */
  function HashPage(t: Table, from: Hash, n: nat): (r: seq<Hash>)
  {
    var rows := Above(t, from);
    if rows == [] then []
    else if |rows| < n then Hashes(rows) + [BLANK]
    else Hashes(rows[..n])
  }

  function Hashes(t: Table): (r: seq<Hash>)
    ensures |r| == |t| && forall i :: 0 <= i < |t| ==> r[i] == t[i].hash
  {
    seq(|t|, i requires 0 <= i < |t| => t[i].hash)
  }

  /** The number of leading rows with hashes below h. */
  function BelowCount(t: Table, h: Hash): (n: nat)
    ensures n <= |t|
  {
    if t == [] || !t[0].hash.Less(h) then 0 else 1 + BelowCount(t[1..], h)
  }

  const BLANK_OBJ := StoreObj([], [], [], 0, [], 0, 0)

  function Objs(group: bytes, t: Table): (r: seq<StoreObj>)
    ensures |r| == |t| && forall i :: 0 <= i < |t| ==> r[i] == ObjOf(group, t[i])
  {
    seq(|t|, i requires 0 <= i < |t| => ObjOf(group, t[i]))
  }

  /** The first records below (timestamp, greatest checksum), with a blank mark when the table ends first. */
  function BelowPage(group: bytes, t: Table, timestamp: u64, n: nat): seq<StoreObj>
  {
    var below := BelowCount(t, Hash(timestamp, TWO_TO_64 - 1));
    if below == 0 then []
    else if |t| < n && below == |t| then Objs(group, t) + [BLANK_OBJ]
    else Objs(group, t[..if below < n then below else n])
  }

  /**
   The page holds the first rows below the bound, at most n, and a blank
   record behind them exactly at the table's end.
   */
  lemma BelowPageMeans(group: bytes, t: Table, timestamp: u64, n: nat)
    requires n > 0
    ensures var below, page := BelowCount(t, Hash(timestamp, TWO_TO_64 - 1)), BelowPage(group, t, timestamp, n);
            var k := if below < n then below else n;
            page == Objs(group, t[..k]) + (if 0 < below == |t| < n then [BLANK_OBJ] else [])
  {
    var below := BelowCount(t, Hash(timestamp, TWO_TO_64 - 1));
    assert t[..|t|] == t;
    assert below == 0 ==> t[..0] == [] && Objs(group, t[..0]) == [];
    assert forall s: seq<StoreObj> :: s + [] == s;
  }

  /** The packet made from a row: both text fields travel with their trailing NUL counted in. */
  function RowPacket(group: bytes, r: Row): bytes {
    RawPacket(r.hash.crc, r.hash.ts, MaskDel(r.flags), group + [0], r.key + [0], r.value, r.sign)
  }

  /** The rows present under the requested hashes, in the order of the request. */
  function FoundRows(t: Table, hs: seq<Hash>): (r: Table)
    ensures |r| <= |hs|
  {
    if hs == [] then []
    else
      var init, last := hs[..|hs| - 1], Get(t, hs[|hs| - 1]);
      if last.Some? then FoundRows(t, init) + [last.value] else FoundRows(t, init)
  }

  function RowPackets(group: bytes, rows: Table): (ps: seq<bytes>)
    ensures |ps| == |rows| && forall i :: 0 <= i < |rows| ==> ps[i] == RowPacket(group, rows[i])
  {
    seq(|rows|, i requires 0 <= i < |rows| => RowPacket(group, rows[i]))
  }

  function PackRows(group: bytes, rows: Table): Pack {
    Pack(|rows|, Concat(RowPackets(group, rows)))
  }

  lemma PackNothing(group: bytes)
    ensures PackRows(group, []) == EMPTY
  {
  }

  lemma PackRowsStep(group: bytes, rows: Table, r: Row)
    ensures var p := PackRows(group, rows);
            PackRows(group, rows + [r]) == Pack(p.count + 1, p.data + RowPacket(group, r))
  {
    assert RowPackets(group, rows + [r])[..|rows|] == RowPackets(group, rows);
  }

  ghost predicate ValidTables(ts: Tables) {
    forall g :: g in ts ==> ValidTable(ts[g])
  }

  class Driver {
    const transactions: bool    // transaction_start and transaction_end of the driver's interface table are set
    var tables: Tables
    var txn: Option<Tables>     // s_txn: what the tables go back to

    ghost predicate Valid()
      reads this
    {
      ValidTables(tables) && (txn.Some? ==> transactions && ValidTables(txn.value))
    }

    /** `dap_global_db_driver_mdbx_init`: both transaction callbacks are filled in and then set to NULL again. */
    constructor ()
      ensures Valid() && tables == map[] && txn.None? && !transactions
    {
      tables, txn, transactions := map[], None, false;
    }

    /** The same driver with its transaction callbacks left in. */
    constructor Transactional()
      ensures Valid() && tables == map[] && txn.None? && transactions
    {
      tables, txn, transactions := map[], None, true;
    }

    /** `dap_global_db_driver_txn_start` over `s_db_mdbx_txn_start`. */
    method TxnStart() returns (rc: int)
      requires Valid()
      modifies this`txn
      ensures Valid() && txn == if transactions && old(txn).None? then Some(tables) else old(txn)
      ensures rc == if !transactions then -1 else if old(txn).Some? then MDBX_BUSY else RC_SUCCESS
    {
      if !transactions {
        return -1;
      }
      if txn.Some? {
        return MDBX_BUSY;
      }
      txn := Some(tables);
      return RC_SUCCESS;
    }

    /** `dap_global_db_driver_txn_end` over `s_db_mdbx_txn_end`. */
    method TxnEnd(commit: bool) returns (rc: int)
      requires Valid()
      modifies this
      ensures Valid() && txn.None?
      ensures tables == if old(txn).Some? && !commit then old(txn).value else old(tables)
      ensures rc == if !transactions then -1 else if old(txn).None? then MDBX_BAD_TXN else RC_SUCCESS
    {
      if !transactions {
        return -1;
      }
      if txn.None? {
        return MDBX_BAD_TXN;
      }
      if !commit {
        tables := txn.value;
      }
      txn := None;
      return RC_SUCCESS;
    }

    /** `s_get_obj_by_text_key`: a cursor goes over the table from the first row. */
    static method FindByTextKey(t: Table, key: bytes) returns (r: Option<Row>)
      ensures r == FindKey(t, key)
    {
      var i := 0;
      while i < |t|
        invariant 0 <= i <= |t|
        invariant FindKey(t, key) == FindKey(t[i..], key)
      {
        if |t[i].value| + |t[i].sign| > 0 && |key| == |t[i].key| && t[i].key == key {
          return Some(t[i]);
        }
        assert t[i..][1..] == t[i + 1..];
        i := i + 1;
      }
      return None;
    }

    /** `dap_global_db_driver_apply` for one record over `s_db_mdbx_apply_store_obj`. */
    method Apply(o: StoreObj) returns (rc: int)
      requires Valid() && WellSized(o.sign)
      modifies this`tables
      ensures Valid()
      ensures (rc, tables) == DriverApply(old(tables), o)
    {
      if HashOf(o) == BLANK {
        return RC_SUCCESS;
      }
      if !Printable(o.key) || !Printable(o.group) {
        return RC_BROKEN;
      }
      if o.crc == 0 || o.key == [] {
        return EINVAL;
      }
      if o.group !in tables {
        if IsErase(o.flags) {
          return RC_NOT_FOUND;
        }
        if |o.group| > GROUP_NAME_SIZE_MAX {
          return EIO;
        }
        tables := tables[o.group := []];
      }
      var t := tables[o.group];
      if !IsErase(o.flags) {
        var prior := FindByTextKey(t, o.key);
        StoreMeans(t, o);
        if prior.Some? {
          t := Del(t, prior.value.hash);
        }
        assert WellKept(RowOf(o));
        tables := tables[o.group := Put(t, RowOf(o))];
        assert tables == old(tables)[o.group := tables[o.group]];
        rc := RC_SUCCESS;
      } else {
        var h := HashOf(o);
        if o.timestamp == 0 {
          var found := FindByTextKey(t, o.key);
          if found.None? {
            return MDBX_NOTFOUND;
          }
          h := found.value.hash;
        }
        if Get(t, h).None? {
          return RC_NOT_FOUND;
        }
        DelMeans(t, h);
        tables := tables[o.group := Del(t, h)];
        rc := RC_SUCCESS;
      }
    }

    /** `dap_global_db_driver_apply` for a list of records; its transaction is committed in any case. */
    method ApplyAll(objs: seq<StoreObj>) returns (rc: int)
      requires Valid() && forall o :: o in objs ==> WellSized(o.sign)
      modifies this
      ensures Valid() && txn == if |objs| > 1 then None else old(txn)
      ensures if objs == [] then rc == -1 && tables == old(tables)
              else (rc, tables) == DriverApplyAll(old(tables), objs)
    {
      hide DriverApply;
      if objs == [] {
        return -1;
      }
      if |objs| > 1 {
        var _ := TxnStart();
      }
      rc := RC_SUCCESS;
      var i := 0;
      while rc == RC_SUCCESS && i < |objs|
        modifies this`tables
        invariant 0 <= i <= |objs| && Valid()
        invariant DriverApplyAll(old(tables), objs)
               == if rc == RC_SUCCESS then DriverApplyAll(tables, objs[i..]) else (rc, tables)
      {
        assert objs[i..][1..] == objs[i + 1..];
        rc := Apply(objs[i]);
        i := i + 1;
      }
      if |objs| > 1 {
        var _ := TxnEnd(true);
      }
    }

    /**
     `s_db_mdbx_apply_store_obj` for a record with the ERASE flag and no key: the table is dropped,
     but not inside a transaction.
     */
    method Drop(group: bytes, timestamp: u64) returns (rc: int)
      requires Valid()
      modifies this`tables
      ensures Valid()
      ensures (rc, tables) == if txn.Some? && timestamp != 0 && Printable(group) then (RC_ERROR, old(tables))
                              else DropApply(old(tables), group, timestamp)
      ensures rc == RC_SUCCESS && timestamp != 0 ==> group !in tables
      ensures timestamp == 0 ==> rc == RC_SUCCESS && tables == old(tables)
      ensures timestamp != 0 && !Printable(group) ==> rc == RC_BROKEN && tables == old(tables)
      ensures forall g :: g != group ==>
                (g in tables <==> g in old(tables)) && (g in tables ==> tables[g] == old(tables)[g])
    {
      if timestamp == 0 {
        return RC_SUCCESS;
      }
      if !Printable(group) {
        return RC_BROKEN;
      }
      if txn.Some? {
        return RC_ERROR;
      }
      if group !in tables {
        assert tables - {group} == tables;
        return RC_SUCCESS;
      }
      tables := tables - {group};
      return RC_SUCCESS;
    }

    /** `s_db_mdbx_read_store_obj` with a key, holes included. */
    method Read(group: bytes, key: bytes) returns (r: Option<StoreObj>)
      requires Valid()
      ensures r == if group in tables && FindKey(tables[group], key).Some?
                   then Some(ObjOf(group, FindKey(tables[group], key).value)) else None
    {
      if group !in tables {
        return None;
      }
      var row := FindByTextKey(tables[group], key);
      return if row.Some? then Some(ObjOf(group, row.value)) else None;
    }

    /** `s_db_mdbx_is_hash`. */
    method IsHash(group: bytes, h: Hash) returns (r: bool)
      requires Valid()
      ensures r <==> group in tables && exists x :: x in tables[group] && x.hash == h
    {
      if group !in tables {
        return false;
      }
      GetMeans(tables[group], h);
      return Get(tables[group], h).Some?;
    }

    /** `s_db_mdbx_read_cond` reading keys only: the next page of hashes behind a cursor. */
    method ReadHashes(group: bytes, from: Hash) returns (page: seq<Hash>)
      requires Valid()
      ensures page == if group in tables then HashPage(tables[group], from, KEYS_PAGE) else []
    {
      if group !in tables {
        return [];
      }
      var rows := Above(tables[group], from);
      if rows == [] {
        return [];
      }
      page := [rows[0].hash];
      var i := 1;
      while |page| < KEYS_PAGE && i < |rows|
        invariant 1 <= i <= |rows| && |page| == i <= KEYS_PAGE
        invariant page == Hashes(rows)[..i]
      {
        page := page + [rows[i].hash];
        i := i + 1;
      }
      if |page| < KEYS_PAGE {
        page := page + [BLANK];
      }
    }

    /** `s_db_mdbx_read_store_obj_below_timestamp`: records from the first one up to a bound. */
    method ReadBelow(group: bytes, timestamp: u64) returns (page: seq<StoreObj>)
      requires Valid()
      ensures page == if group in tables then BelowPage(group, tables[group], timestamp, COUNT_PAGE) else []
    {
      hide ObjOf, ValidTable;
      if group !in tables {
        return [];
      }
      var t, bound := tables[group], Hash(timestamp, TWO_TO_64 - 1);
      if t == [] || !t[0].hash.Less(bound) {
        return [];
      }
      page := [ObjOf(group, t[0])];
      var i := 1;
      while |page| < COUNT_PAGE && i < |t| && t[i].hash.Less(bound)
        invariant 1 <= i <= |t| && |page| == i <= COUNT_PAGE
        invariant BelowCount(t, bound) == i + BelowCount(t[i..], bound)
        invariant page == Objs(group, t)[..i]
      {
        assert t[i..][1..] == t[i + 1..];
        page := page + [ObjOf(group, t[i])];
        i := i + 1;
      }
      assert page == Objs(group, t[..i]);
      assert BelowCount(t, bound) >= i;
      if |page| < COUNT_PAGE && i == |t| {
        assert t[..i] == t;
        page := page + [BLANK_OBJ];
      }
    }

    /** `s_db_mdbx_get_by_hash`: one packet for each hash that is present. */
    method GetByHash(group: bytes, hs: seq<Hash>) returns (p: Option<Pack>)
      requires Valid()
      ensures p == if group in tables && FoundRows(tables[group], hs) != []
                   then Some(PackRows(group, FoundRows(tables[group], hs))) else None
    {
      hide PackRows, RowPacket, ValidTables;
      p := None;
      PackNothing(group);
      if group !in tables {
        return;
      }
      var t, i := tables[group], 0;
      while i < |hs|
        invariant 0 <= i <= |hs|
        invariant p == if FoundRows(t, hs[..i]) != [] then Some(PackRows(group, FoundRows(t, hs[..i]))) else None
      {
        var row := Get(t, hs[i]);
        assert hs[..i + 1][..i] == hs[..i];
        if row.Some? {
          PackRowsStep(group, FoundRows(t, hs[..i]), row.value);
          var q := if p.Some? then p.value else EMPTY;
          p := Some(Pack(q.count + 1, q.data + RowPacket(group, row.value)));
        }
        i := i + 1;
      }
      assert hs[..|hs|] == hs;
    }
  }
}
