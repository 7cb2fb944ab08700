/**
 GlobalDB: the rule that decides whether a record is applied, the local write operations
 built on it, and reads.
 */
module GlobalDb {
  import opened Bytes
  import opened DriverHash
  import opened Packet
  import opened Envelope
  import opened MdbxTable
  import opened MdbxDriver

  const ROLE_INVALID: int := -1
  const ROLE_USER: int := 2
  const ROLE_ROOT: int := 3

  const FLAG_DEL: byte := 1
  const FLAG_NEW: byte := 64

  /** A cluster: the groups it covers, its time to live in nanoseconds and its access rules. */
  datatype Cluster = Cluster(mask: bytes, ttl: u64, ownerRootAccess: bool, defaultRole: int, roles: map<u64, int>)

  /** What a node brings to the decision besides its tables, and whether its driver has transactions. */
  datatype Node = Node(crypto: Crypto, signingKey: Option<bytes>, clusters: seq<Cluster>, transactions: bool)

  // Groups and clusters.

  const STAR: byte := 42

  /** The literal part of a mask: everything before its first wildcard. */
  function Literal(mask: bytes): (r: bytes)
    ensures |r| <= |mask| && r == mask[..|r|]
    ensures |r| < |mask| ==> mask[|r|] == STAR
  {
    if mask == [] || mask[0] == STAR then []
    else [mask[0]] + Literal(mask[1..])
  }

  predicate OccursAt(s: bytes, sub: bytes, i: nat) {
    i + |sub| <= |s| && s[i..i + |sub|] == sub
  }

  predicate Occurs(s: bytes, sub: bytes) {
    exists i :: 0 <= i <= |s| && OccursAt(s, sub, i)
  }

  /**
   The groups a mask covers: the group and the literal part agree as far as both go, and
   what follows the wildcard occurs in the rest of the group.
   */
  predicate Covers(mask: bytes, group: bytes) {
    var lit := Literal(mask);
    var n := if |group| < |lit| then |group| else |lit|;
    && group != [] && mask != []
    && group[..n] == lit[..n]
    && (|lit| <= |group| && |lit| + 1 < |mask| ==> Occurs(group[|lit|..], mask[|lit| + 1..]))
  }

  ghost predicate MadeOf(s: bytes, a: bytes, b: bytes, c: bytes, d: bytes) { s == a + b + c + d }

  /**
   A mask made of a text, a wildcard and another text: the group starts with the first, and the second
   occurs somewhere behind it. A group that ends within the first text is covered as well.
   */
  lemma MaskMeans(prefix: bytes, suffix: bytes, group: bytes)
    requires STAR !in prefix && group != []
    ensures Covers(prefix + [STAR] + suffix, group) <==>
            if |group| < |prefix| then group <= prefix else exists x, y :: MadeOf(group, prefix, x, suffix, y)
  {
    hide Literal, Occurs, MadeOf;
    var mask := prefix + [STAR] + suffix;
    LiteralIs(prefix, [STAR] + suffix);
    assert mask == prefix + ([STAR] + suffix) && mask[|prefix| + 1..] == suffix;
    if |prefix| <= |group| {
      MadeOfIff(prefix, suffix, group);
    }
  }

  lemma MadeOfIff(prefix: bytes, suffix: bytes, group: bytes)
    requires |prefix| <= |group|
    ensures (exists x, y :: MadeOf(group, prefix, x, suffix, y)) <==>
            group[..|prefix|] == prefix && Occurs(group[|prefix|..], suffix)
    ensures suffix == [] ==> Occurs(group[|prefix|..], suffix)
  {
    hide MadeOf;
    var tail := group[|prefix|..];
    assert suffix == [] ==> OccursAt(tail, suffix, 0);
    assert group == group[..|prefix|] + tail;
    if group[..|prefix|] == prefix && Occurs(tail, suffix) {
      var i :| 0 <= i <= |tail| && OccursAt(tail, suffix, i);
      Assembled(prefix, tail, suffix, i);
    }
    if x, y :| MadeOf(group, prefix, x, suffix, y) {
      Disassembled(group, prefix, x, suffix, y);
    }
  }

  lemma Assembled(prefix: bytes, tail: bytes, suffix: bytes, i: nat)
    requires OccursAt(tail, suffix, i)
    ensures MadeOf(prefix + tail, prefix, tail[..i], suffix, tail[i + |suffix|..])
  {
    assert tail == tail[..i] + suffix + tail[i + |suffix|..];
    Reassociate(prefix, tail[..i], suffix, tail[i + |suffix|..]);
  }

  lemma Disassembled(group: bytes, prefix: bytes, x: bytes, suffix: bytes, y: bytes)
    requires MadeOf(group, prefix, x, suffix, y)
    ensures |prefix| + |x| <= |group| && group[..|prefix|] == prefix && OccursAt(group[|prefix|..], suffix, |x|)
  {
    Reassociate(prefix, x, suffix, y);
    assert group[|prefix|..] == x + suffix + y;
  }

  lemma Reassociate(a: bytes, b: bytes, c: bytes, d: bytes)
    ensures a + b + c + d == a + (b + c + d)
  {
  }

  /** A mask without a wildcard: the group and the mask agree as far as the shorter one goes. */
  lemma PlainMaskMeans(mask: bytes, group: bytes)
    requires STAR !in mask && group != [] && mask != []
    ensures Covers(mask, group) <==> group <= mask || mask <= group
  {
    LiteralIs(mask, []);
    assert mask + [] == mask;
  }

  lemma {:induction false} LiteralIs(prefix: bytes, rest: bytes)
    requires STAR !in prefix && (rest == [] || rest[0] == STAR)
    ensures Literal(prefix + rest) == prefix
  {
    if prefix == [] {
      assert prefix + rest == rest;
    } else {
      LiteralIs(prefix[1..], rest);
      assert (prefix + rest)[1..] == prefix[1..] + rest;
    }
  }

  /** `strchr` for the wildcard; the length of the mask if it has none. */
  method FindWildcard(mask: bytes) returns (w: nat)
    ensures w <= |mask| && Literal(mask) == mask[..w] && (w < |mask| ==> mask[w] == STAR)
  {
    w := 0;
    while w < |mask| && mask[w] != STAR
      invariant 0 <= w <= |mask| && |Literal(mask)| == w + |Literal(mask[w..])|
    {
      assert mask[w..][1..] == mask[w + 1..];
      w := w + 1;
    }
  }

  /** `dap_global_db_group_match_mask`. */
  method GroupMatchMask(group: bytes, mask: bytes) returns (r: bool)
    ensures r <==> Covers(mask, group)
  {
    hide Literal, Occurs;
    if group == [] || mask == [] {
      return false;
    }
    var wildcard := FindWildcard(mask);
    var g, m := 0, 0;
    while m < wildcard && g < |group|
      invariant 0 <= g == m <= wildcard && g <= |group|
      invariant group[..g] == mask[..m]
    {
      if group[g] != mask[m] {
        assert group[..g + 1][g] != Literal(mask)[..g + 1][g];
        return false;
      }
      g, m := g + 1, m + 1;
    }
    if wildcard < |mask| && m == wildcard {
      m := m + 1;
      if m < |mask| {
        return Occurs(group[g..], mask[m..]);
      }
    }
    return true;
  }

  /** `dap_global_db_cluster_by_group`: the first cluster whose mask covers the group. */
  function ByGroup(clusters: seq<Cluster>, group: bytes): Option<Cluster> {
    if clusters == [] then None
    else if Covers(clusters[0].mask, group) then Some(clusters[0])
    else ByGroup(clusters[1..], group)
  }

  lemma {:induction false} ByGroupMeans(clusters: seq<Cluster>, group: bytes, i: nat)
    requires i < |clusters| && forall j :: 0 <= j < i ==> !Covers(clusters[j].mask, group)
    ensures Covers(clusters[i].mask, group) ==> ByGroup(clusters, group) == Some(clusters[i])
    ensures i == |clusters| - 1 && !Covers(clusters[i].mask, group) ==> ByGroup(clusters, group) == None
  {
    hide Covers;
    if i > 0 {
      forall j | 0 <= j < i - 1 ensures !Covers(clusters[1..][j].mask, group) {
        assert clusters[1..][j] == clusters[j + 1];
      }
      ByGroupMeans(clusters[1..], group, i - 1);
    }
  }

  // The decision.

  function TableOf(ts: Tables, group: bytes): Table {
    if group in ts then ts[group] else []
  }

  lemma HeldMeans(ts: Tables, group: bytes, h: Hash)
    requires group in ts ==> Ascending(ts[group])
    ensures Get(TableOf(ts, group), h).Some? <==> group in ts && exists x :: x in ts[group] && x.hash == h
  {
    GetMeans(TableOf(ts, group), h);
  }

  /** Older than the time to live; 64-bit arithmetic, and a time to live of 0 means unlimited. */
  predicate Expired(ttl: u64, timestamp: u64, now: u64) {
    ttl != 0 && (timestamp + ttl) % TWO_TO_64 < now
  }

  /** The role of a record's signer in a cluster. */
  function SignerRole(node: Node, cl: Cluster, o: StoreObj): int {
    var role := if o.sign != [] && node.crypto.address(o.sign) in cl.roles
                then cl.roles[node.crypto.address(o.sign)] else ROLE_INVALID;
    if role == ROLE_INVALID then cl.defaultRole else role
  }

  /** The signer owns the existing record, in a cluster that grants owners full access. */
  predicate OwnerOf(node: Node, cl: Cluster, o: StoreObj, existing: Row) {
    && cl.ownerRootAccess && o.sign != []
    && (existing.sign == [] || node.crypto.pkey(o.sign) == node.crypto.pkey(existing.sign))
  }

  /** A locally made record that lost against a newer one is moved just behind it and signed again. */
  function Restamp(node: Node, o: StoreObj, existing: Row): StoreObj
    requires Fits(o)
  {
    var o1 := o.(timestamp := (existing.hash.ts + 1) % TWO_TO_64, sign := [], crc := 0);
    var (sign, crc) := Sign(node.crypto, o1, node.signingKey);
    o1.(sign := sign, crc := crc)
  }

  lemma RestampSign(node: Node, o: StoreObj, existing: Row)
    requires node.crypto.Sound() && Fits(o) && node.signingKey.Some?
    ensures var o' := Restamp(node, o, existing); o'.sign != [] && WellSized(o'.sign)
  {
    hide Serialize, Covered, WithDataLen, DataLen;
  }

  datatype Verdict = Reject(code: int) | Accept(obj: StoreObj)

  /** The rule of `s_store_obj_apply`: which record, if any, goes to the driver. */
  function Decide(node: Node, ts: Tables, o: StoreObj, now: u64): Verdict
    requires Fits(o)
  {
    var t, cluster := TableOf(ts, o.group), ByGroup(node.clusters, o.group);
    if cluster.None? then Reject(-11)
    else if Get(t, HashOf(o)).Some? then Reject(-12)
    else if o.timestamp > now || Expired(cluster.value.ttl, o.timestamp, now) then Reject(-13)
    else if SignerRole(node, cluster.value, o) < ROLE_USER then Reject(-14)
    else
      var existing := FindKey(t, o.key);
      if existing.None? then Accept(o)
      else if !(SignerRole(node, cluster.value, o) >= ROLE_ROOT || OwnerOf(node, cluster.value, o, existing.value))
      then Reject(-16)
      else match Compare(existing.value.hash, HashOf(o))
        case 1 =>
          if !IsNew(o.flags) then Reject(-18)
          else if node.signingKey.None? then Reject(-20)
          else Accept(Restamp(node, o, existing.value))
        case 0 => Reject(-17)
        case -1 => Accept(o)
        case _ => Reject(-19)
  }

  /** The outcome of applying a record: the code, the tables after it and the record that was written. */
  datatype Applied = Applied(code: int, tables: Tables, stored: Option<StoreObj>)

  function Apply(node: Node, ts: Tables, o: StoreObj, now: u64): Applied
    requires Fits(o)
  {
    match Decide(node, ts, o, now)
    case Reject(code) => Applied(code, ts, None)
    case Accept(o') =>
      var (code, ts') := DriverApply(ts, o');
      Applied(code, ts', if code == RC_SUCCESS && HashOf(o') != BLANK then Some(o') else None)
  }

  // Local operations.

  function Signed(node: Node, o: StoreObj): StoreObj
    requires Fits(o)
  {
    var (sign, crc) := Sign(node.crypto, o, node.signingKey);
    o.(sign := sign, crc := crc)
  }

  /** The record that `s_set_sync_with_ts` makes for an unpinned value. */
  function NewRecord(group: bytes, key: bytes, value: bytes, timestamp: u64): StoreObj {
    StoreObj(group, key, value, FLAG_NEW, [], timestamp, 0)
  }

  /** The tombstone that `s_del_sync_with_dbi_ex` makes for a key. */
  function Tombstone(group: bytes, key: bytes, value: bytes, timestamp: u64): StoreObj {
    StoreObj(group, key, value, FLAG_NEW + FLAG_DEL, [], timestamp, 0)
  }

  lemma LocalFlags()
    ensures !IsPinned(FLAG_NEW) && !IsErase(FLAG_NEW) && IsNew(FLAG_NEW) && !IsDel(FLAG_NEW)
    ensures var f: byte := FLAG_NEW + FLAG_DEL; !IsPinned(f) && !IsErase(f) && IsNew(f) && IsDel(f)
  {
  }

  /** Room for a signature of the node in the packet of the record. */
  ghost predicate SignatureFits(node: Node, o: StoreObj) {
    Fits(o) && (node.signingKey.Some?
            ==> forall data :: Fits(o.(sign := node.crypto.create(node.signingKey.value, data))))
  }

  lemma SignedSign(node: Node, o: StoreObj)
    requires node.crypto.Sound() && SignatureFits(node, o)
    ensures Fits(Signed(node, o)) && WellSized(Signed(node, o).sign)
    ensures Signed(node, o).sign == [] <==> node.signingKey.None?
    ensures Signed(node, o) == o.(sign := Signed(node, o).sign, crc := Signed(node, o).crc)
  {
    hide Serialize, Covered, WithDataLen, DataLen;
  }

  function Set(node: Node, ts: Tables, group: bytes, key: bytes, value: bytes, timestamp: u64, now: u64): Applied
    requires Fits(NewRecord(group, key, value, timestamp))
          && Fits(Signed(node, NewRecord(group, key, value, timestamp)))
  {
    var o := Signed(node, NewRecord(group, key, value, timestamp));
    if o.sign == [] then Applied(RC_ERROR, ts, None) else Apply(node, ts, o, now)
  }

  function Delete(node: Node, ts: Tables, group: bytes, key: bytes, value: bytes, now: u64): Applied
    requires Fits(Tombstone(group, key, value, now)) && Fits(Signed(node, Tombstone(group, key, value, now)))
  {
    Apply(node, ts, Signed(node, Tombstone(group, key, value, now)), now)
  }

  /** `dap_global_db_get_sync`: value and timestamp of the record under a key, tombstones included. */
  function Lookup(ts: Tables, group: bytes, key: bytes): Option<(bytes, u64)> {
    var r := FindKey(TableOf(ts, group), key);
    if r.Some? then Some((r.value.value, r.value.hash.ts)) else None
  }

  /** Deleting a whole group: the driver drops its table, without any check. */
  function DropGroup(ts: Tables, group: bytes, now: u64): Applied {
    var (code, ts') := DropApply(ts, group, now);
    Applied(code, ts', None)
  }

  /**
   The record that an application announces to the cluster: a NEW one that the rule accepted, but
   no tombstone for a key that has no record. The driver's answer does not matter.
   */
  function Announced(node: Node, ts: Tables, o: StoreObj, now: u64): Option<StoreObj>
    requires Fits(o)
  {
    var v := Decide(node, ts, o, now);
    if v.Accept? && IsNew(o.flags) && (!IsDel(o.flags) || FindKey(TableOf(ts, o.group), o.key).Some?)
    then Some(v.obj)
    else None
  }

  /** Applying records one after the other, each at its own reading of the clock. */
  function ApplyAll(node: Node, ts: Tables, objs: seq<StoreObj>, nows: seq<u64>): Tables
    requires |objs| == |nows| && forall o :: o in objs ==> Fits(o)
  {
    if objs == [] then ts
    else
      var k := |objs| - 1;
      Apply(node, ApplyAll(node, ts, objs[..k], nows[..k]), objs[k], nows[k]).tables
  }

  /** The code of the last record of a list, an error for an empty one. */
  function LastCode(node: Node, ts: Tables, objs: seq<StoreObj>, nows: seq<u64>): int
    requires |objs| == |nows| && forall o :: o in objs ==> Fits(o)
  {
    if objs == [] then RC_ERROR
    else
      var k := |objs| - 1;
      Apply(node, ApplyAll(node, ts, objs[..k], nows[..k]), objs[k], nows[k]).code
  }

  /** The tables after a list: with transactions a list of several records is undone if the last one fails. */
  function Committed(node: Node, ts: Tables, objs: seq<StoreObj>, nows: seq<u64>): Tables
    requires |objs| == |nows| && forall o :: o in objs ==> Fits(o)
  {
    if node.transactions && |objs| > 1 && LastCode(node, ts, objs, nows) != RC_SUCCESS then ts
    else ApplyAll(node, ts, objs, nows)
  }

  lemma ApplyNone(node: Node, ts: Tables)
    ensures ApplyAll(node, ts, [], []) == ts
  {
  }

  lemma NothingInEmpty(key: bytes)
    ensures FindKey([], key) == None
  {
  }

  lemma ApplyNext(node: Node, ts: Tables, objs: seq<StoreObj>, nows: seq<u64>, i: nat)
    requires |objs| == |nows| && i < |objs| && forall o :: o in objs ==> Fits(o)
    ensures ApplyAll(node, ts, objs[..i + 1], nows[..i + 1])
         == Apply(node, ApplyAll(node, ts, objs[..i], nows[..i]), objs[i], nows[i]).tables
  {
    hide Apply, Fits;
    assert objs[..i + 1][..i] == objs[..i] && nows[..i + 1][..i] == nows[..i];
  }

  class Db {
    const node: Node
    const driver: Driver

    /** What holds between the records of a list as well. */
    ghost predicate Ready()
      reads driver
    {
      driver.Valid() && node.crypto.Sound() && node.transactions == driver.transactions
    }

    ghost predicate Valid()
      reads driver
    {
      Ready() && driver.txn.None?
    }

    constructor (node: Node)
      requires node.crypto.Sound()
      ensures Valid() && this.node == node && fresh(driver) && driver.tables == map[]
    {
      this.node := node;
      if node.transactions {
        driver := new Driver.Transactional();
      } else {
        driver := new Driver();
      }
    }

    /** The checks of `s_store_obj_apply` up to the driver call. */
    method Admit(o: StoreObj, now: u64) returns (v: Verdict)
      requires Ready() && WellSized(o.sign) && Fits(o)
      ensures v == Decide(node, driver.tables, o, now)
      ensures v.Accept? ==> WellSized(v.obj.sign)
    {
      hide Compare, Sign, FindKey;
      var cluster := ByGroup(node.clusters, o.group);
      if cluster.None? {
        return Reject(-11);
      }
      var duplicate := driver.IsHash(o.group, HashOf(o));
      HeldMeans(driver.tables, o.group, HashOf(o));
      if duplicate {
        return Reject(-12);
      }
      if o.timestamp > now {
        return Reject(-13);
      }
      if Expired(cluster.value.ttl, o.timestamp, now) {
        return Reject(-13);
      }
      var role := ROLE_INVALID;
      if o.sign != [] && node.crypto.address(o.sign) in cluster.value.roles {
        role := cluster.value.roles[node.crypto.address(o.sign)];
      }
      if role == ROLE_INVALID {
        role := cluster.value.defaultRole;
      }
      if role < ROLE_USER {
        return Reject(-14);
      }
      var required, existing := ROLE_USER, None;
      if o.group in driver.tables {
        existing := Driver.FindByTextKey(driver.tables[o.group], o.key);
      }
      var o' := o;
      if existing.Some? {
        required := ROLE_ROOT;
        if OwnerOf(node, cluster.value, o, existing.value) {
          role := ROLE_ROOT;
        }
      }
      if role < required {
        return Reject(-16);
      }
      if existing.Some? {
        var order := Compare(existing.value.hash, HashOf(o));
        if order == 1 {
          if !IsNew(o.flags) {
            return Reject(-18);
          }
          if node.signingKey.None? {
            return Reject(-20);
          }
          RestampSign(node, o, existing.value);
          o' := Restamp(node, o, existing.value);
        } else if order == 0 {
          return Reject(-17);
        }
      }
      return Accept(o');
    }

    /** `s_store_obj_apply`, for unpinned records; `news` is what is broadcast. */
    method StoreObjApply(o: StoreObj, now: u64) returns (rc: int, news: Option<StoreObj>)
      requires Ready() && WellSized(o.sign) && Fits(o)
      modifies driver`tables
      ensures Ready()
      ensures rc == Apply(node, old(driver.tables), o, now).code
      ensures driver.tables == Apply(node, old(driver.tables), o, now).tables
      ensures news == Announced(node, old(driver.tables), o, now)
    {
      hide Decide, DriverApply, IsNew, IsDel, FindKey;
      var existing := None;
      if o.group in driver.tables {
        existing := Driver.FindByTextKey(driver.tables[o.group], o.key);
      }
      NothingInEmpty(o.key);
      var v := Admit(o, now);
      news := None;
      match v {
        case Reject(code) => rc := code;
        case Accept(o') =>
          rc := driver.Apply(o');
          if !IsDel(o.flags) || existing.Some? {
            if IsNew(o.flags) {
              news := Some(o');
            }
          }
      }
    }

    /** `s_set_sync_with_ts`, unpinned. */
    method SetSync(group: bytes, key: bytes, value: bytes, timestamp: u64, now: u64) returns (rc: int)
      requires Valid() && SignatureFits(node, NewRecord(group, key, value, timestamp))
      modifies driver`tables
      ensures Valid() && Fits(Signed(node, NewRecord(group, key, value, timestamp)))
      ensures rc == Set(node, old(driver.tables), group, key, value, timestamp, now).code
      ensures driver.tables == Set(node, old(driver.tables), group, key, value, timestamp, now).tables
    {
      SignedSign(node, NewRecord(group, key, value, timestamp));
      var o := Signed(node, NewRecord(group, key, value, timestamp));
      if o.sign == [] {
        return RC_ERROR;
      }
      var news;
      rc, news := StoreObjApply(o, now);
    }

    /** `s_del_sync_with_dbi_ex`: a tombstone for a key, or the drop of the whole group without one. */
    method DelSync(group: bytes, key: Option<bytes>, value: bytes, now: u64) returns (rc: int)
      requires Valid() && (key.Some? ==> SignatureFits(node, Tombstone(group, key.value, value, now)))
      modifies driver`tables
      ensures Valid()
      ensures key.Some? ==> Fits(Signed(node, Tombstone(group, key.value, value, now)))
      ensures var a := if key.Some? then Delete(node, old(driver.tables), group, key.value, value, now)
                       else DropGroup(old(driver.tables), group, now);
              rc == a.code && driver.tables == a.tables
    {
      hide Apply, DropApply;
      if key.None? {
        rc := driver.Drop(group, now);
        return;
      }
      SignedSign(node, Tombstone(group, key.value, value, now));
      var news;
      rc, news := StoreObjApply(Signed(node, Tombstone(group, key.value, value, now)), now);
    }

    /** `dap_global_db_get_sync`. */
    method GetSync(group: bytes, key: bytes) returns (r: Option<(bytes, u64)>)
      requires Valid()
      ensures r == Lookup(driver.tables, group, key)
    {
      var o := driver.Read(group, key);
      return if o.Some? then Some((o.value.value, o.value.timestamp)) else None;
    }

    /**
     `s_db_set_raw_sync`: every record is tried, whatever happened to the ones before, and the code of
     the last one decides on the transaction, if the driver has any.
     */
    method SetRawSync(objs: seq<StoreObj>, nows: seq<u64>) returns (rc: int)
      requires Valid() && |objs| == |nows| && forall o :: o in objs ==> WellSized(o.sign) && Fits(o)
      modifies driver
      ensures Valid()
      ensures driver.tables == Committed(node, old(driver.tables), objs, nows)
      ensures rc == LastCode(node, old(driver.tables), objs, nows)
      ensures objs == [] ==> rc == -6 && driver.tables == old(driver.tables)
    {
      hide Apply, Fits, WellSized, ApplyAll;
      rc := RC_ERROR;
      var i := 0;
      ghost var ts := driver.tables;
      if |objs| > 1 {
        var _ := driver.TxnStart();
      }
      ApplyNone(node, ts);
      assert objs[..0] == [] && nows[..0] == [];
      while i < |objs|
        invariant 0 <= i <= |objs| && Ready()
        invariant driver.txn == if driver.transactions && |objs| > 1 then Some(ts) else None
        invariant driver.tables == ApplyAll(node, ts, objs[..i], nows[..i])
        invariant rc == LastCode(node, ts, objs[..i], nows[..i])
      {
        ApplyNext(node, ts, objs, nows, i);
        assert objs[..i + 1][..i] == objs[..i] && nows[..i + 1][..i] == nows[..i];
        var news;
        rc, news := StoreObjApply(objs[i], nows[i]);
        i := i + 1;
      }
      assert objs[..i] == objs && nows[..i] == nows;
      if |objs| > 1 {
        var _ := driver.TxnEnd(rc == RC_SUCCESS);
      }
    }
  }
}
