/** What a node promises about its own store: reads see writes, and old records do not come back. */
module Consistency {
  import opened Bytes
  import opened DriverHash
  import opened Packet
  import opened Envelope
  import opened MdbxTable
  import opened MdbxDriver
  import opened GlobalDb
  import opened Sweep

  /** A record without the ERASE and PINNED flags, as reads and the network deliver it. */
  predicate Plain(o: StoreObj) {
    Fits(o) && WellSized(o.sign) && !IsErase(o.flags) && !IsPinned(o.flags)
  }

  /** An accepted record is the offered one, or the offered one moved behind the existing record. */
  lemma AcceptMeans(node: Node, ts: Tables, o: StoreObj, now: u64)
    requires node.crypto.Sound() && Plain(o)
    ensures var v, x := Decide(node, ts, o, now), FindKey(TableOf(ts, o.group), o.key);
            v.Accept? ==>
              && v.obj.group == o.group && v.obj.key == o.key && v.obj.value == o.value && v.obj.flags == o.flags
              && WellSized(v.obj.sign)
              && (v.obj == o || (x.Some? && v.obj.sign != []
                              && (x.value.hash.ts + 1 < TWO_TO_64 ==> v.obj.timestamp == x.value.hash.ts + 1)))
  {
    hide Sign, Compare;
    var x := FindKey(TableOf(ts, o.group), o.key);
    if x.Some? && node.signingKey.Some? {
      RestampSign(node, o, x.value);
    }
  }

  /** The signer may put the record in the place of an existing one. */
  ghost predicate Overrides(node: Node, o: StoreObj, r: Row) {
    var cl := ByGroup(node.clusters, o.group);
    cl.Some? &&
    (|| SignerRole(node, cl.value, o) >= ROLE_ROOT
     || (&& cl.value.ownerRootAccess && o.sign != []
         && (r.sign == [] || node.crypto.pkey(o.sign) == node.crypto.pkey(r.sign))))
  }

  /** A signer has the role that the cluster lists for its address; everybody else has the default role. */
  lemma SignerRoleMeans(node: Node, cl: Cluster, o: StoreObj)
    ensures var listed := o.sign != [] && node.crypto.address(o.sign) in cl.roles;
            && (listed && cl.roles[node.crypto.address(o.sign)] != ROLE_INVALID ==>
                 SignerRole(node, cl, o) == cl.roles[node.crypto.address(o.sign)])
            && (!listed || cl.roles[node.crypto.address(o.sign)] == ROLE_INVALID ==>
                 SignerRole(node, cl, o) == cl.defaultRole)
  {
  }

  /** What the rule asks of a record by itself: a known group, an unused hash, a time within range, a writer's role. */
  ghost predicate InOrder(node: Node, ts: Tables, o: StoreObj, now: u64) {
    && ByGroup(node.clusters, o.group).Some?
    && var cl := ByGroup(node.clusters, o.group).value;
    && (forall x :: x in TableOf(ts, o.group) ==> x.hash != HashOf(o))
    && o.timestamp <= now && (cl.ttl == 0 || now <= (o.timestamp + cl.ttl) % TWO_TO_64)
    && SignerRole(node, cl, o) >= ROLE_USER
  }

  /**
   The rule accepts a record exactly when it is in order and nothing is found under its key, or a record
   that its signer may replace and that is older, or newer while this node made the record and can sign
   it again.
   */
  lemma AcceptIff(node: Node, ts: Tables, o: StoreObj, now: u64)
    requires Fits(o) && Ascending(TableOf(ts, o.group))
    ensures var y := FindKey(TableOf(ts, o.group), o.key);
            Decide(node, ts, o, now).Accept? <==>
            && InOrder(node, ts, o, now)
            && (y.None? || (&& Overrides(node, o, y.value)
                            && (y.value.hash.Less(HashOf(o)) || (IsNew(o.flags) && node.signingKey.Some?))))
  {
    hide Covers, Compare, FindKey, Sign;
    var t := TableOf(ts, o.group);
    var y := FindKey(t, o.key);
    GetMeans(t, HashOf(o));
    FoundRow(t, o.key);
    if y.Some? {
      CompareIsLexicographic(y.value.hash, HashOf(o));
    }
  }

  /** The code of a refusal names the first condition that fails, in the order in which they are tried. */
  lemma RefusalMeans(node: Node, ts: Tables, o: StoreObj, now: u64)
    requires Fits(o) && Ascending(TableOf(ts, o.group)) && Decide(node, ts, o, now).Reject?
    ensures var cl, y := ByGroup(node.clusters, o.group), FindKey(TableOf(ts, o.group), o.key);
            Decide(node, ts, o, now).code
            == if cl.None? then -11
               else if exists x :: x in TableOf(ts, o.group) && x.hash == HashOf(o) then -12
               else if o.timestamp > now || (cl.value.ttl > 0 && (o.timestamp + cl.value.ttl) % TWO_TO_64 < now)
                   then -13
               else if SignerRole(node, cl.value, o) < ROLE_USER then -14
               else if y.Some? && !Overrides(node, o, y.value) then -16
               else if IsNew(o.flags) then -20 else -18
  {
    hide Covers, Compare, FindKey, Sign;
    var t := TableOf(ts, o.group);
    var y := FindKey(t, o.key);
    GetMeans(t, HashOf(o));
    FoundRow(t, o.key);
    if y.Some? {
      CompareIsLexicographic(y.value.hash, HashOf(o));
    }
  }

  /** The record that an accepted one is written as: moved behind a newer one that it replaces. */
  function WrittenAs(node: Node, ts: Tables, o: StoreObj): StoreObj
    requires Fits(o)
  {
    var y := FindKey(TableOf(ts, o.group), o.key);
    if y.Some? && HashOf(o).Less(y.value.hash) then Restamp(node, o, y.value) else o
  }

  /** The driver takes the record: nothing is asked of a blank hash, else printable text, a key and a checksum. */
  ghost predicate Writable(ts: Tables, o: StoreObj) {
    || HashOf(o) == BLANK
    || (Printable(o.key) && Printable(o.group) && o.crc != 0 && o.key != []
        && (o.group in ts || |o.group| <= GROUP_NAME_SIZE_MAX))
  }

  /** An application succeeds exactly when the rule accepts the record and the driver takes what it is written as. */
  lemma SucceedsIff(node: Node, ts: Tables, o: StoreObj, now: u64)
    requires Fits(o) && !IsErase(o.flags) && Ascending(TableOf(ts, o.group))
    ensures var y := FindKey(TableOf(ts, o.group), o.key);
            Apply(node, ts, o, now).code == RC_SUCCESS <==>
            && InOrder(node, ts, o, now) && Writable(ts, WrittenAs(node, ts, o))
            && (y.None? || (&& Overrides(node, o, y.value)
                            && (y.value.hash.Less(HashOf(o)) || (IsNew(o.flags) && node.signingKey.Some?))))
  {
    hide Decide, InOrder, Overrides, Restamp, FindKey, Store, IsNew;
    AcceptIff(node, ts, o, now);
    RefusalIsNoSuccess(node, ts, o, now);
    WrittenMeans(node, ts, o, now);
  }

  lemma RefusalIsNoSuccess(node: Node, ts: Tables, o: StoreObj, now: u64)
    requires Fits(o) && Ascending(TableOf(ts, o.group))
    ensures Decide(node, ts, o, now).Reject? ==> Decide(node, ts, o, now).code != RC_SUCCESS
  {
    hide Decide, Overrides, FindKey;
    if Decide(node, ts, o, now).Reject? {
      RefusalMeans(node, ts, o, now);
    }
  }

  lemma WrittenMeans(node: Node, ts: Tables, o: StoreObj, now: u64)
    requires Fits(o) && Ascending(TableOf(ts, o.group))
    ensures var v := Decide(node, ts, o, now);
            v.Accept? ==> v.obj == WrittenAs(node, ts, o) && v.obj.flags == o.flags && v.obj.group == o.group
                          && v.obj.key == o.key
  {
    hide Covers, Compare, FindKey, Sign;
    var t := TableOf(ts, o.group);
    var y := FindKey(t, o.key);
    GetMeans(t, HashOf(o));
    FoundRow(t, o.key);
    if y.Some? {
      CompareIsLexicographic(y.value.hash, HashOf(o));
    }
  }

  lemma FoundRow(t: Table, key: bytes)
    ensures FindKey(t, key).Some? ==> FindKey(t, key).value in t
  {
  }

  /** The shape of a successful write, and that nothing else changes a table. */
  lemma AppliedMeans(node: Node, ts: Tables, o: StoreObj, now: u64)
    requires node.crypto.Sound() && Plain(o)
    ensures var a, x := Apply(node, ts, o, now), FindKey(TableOf(ts, o.group), o.key);
            && (a.stored.None? ==> a.tables == ts)
            && (a.stored.Some? ==>
                  var s := a.stored.value;
                  && a.code == RC_SUCCESS && a.tables == ts[o.group := Store(TableOf(ts, o.group), s)]
                  && s.group == o.group && s.key == o.key && s.value == o.value && s.flags == o.flags
                  && s.crc != 0 && s.key != [] && Printable(s.key) && Printable(s.group) && WellSized(s.sign)
                  && (s == o || (x.Some? && s.sign != []
                              && (x.value.hash.ts + 1 < TWO_TO_64 ==> s.timestamp == x.value.hash.ts + 1))))
  {
    hide Decide, Store;
    AcceptMeans(node, ts, o, now);
  }

  /** An accepted record is newer than the record it replaces. */
  lemma AcceptedIsNewer(node: Node, ts: Tables, o: StoreObj, now: u64)
    requires node.crypto.Sound() && Plain(o)
    ensures var a, x := Apply(node, ts, o, now), FindKey(TableOf(ts, o.group), o.key);
            a.stored.Some? && x.Some? && x.value.hash.ts + 1 < TWO_TO_64 ==> x.value.hash.Less(HashOf(a.stored.value))
  {
    hide Sign, Memcmp, DriverApply, Compare;
    var x := FindKey(TableOf(ts, o.group), o.key);
    if x.Some? {
      CompareIsLexicographic(x.value.hash, HashOf(o));
    }
  }

  /** An accepted record is within its time to live, or moved just behind an existing one. */
  lemma AcceptedIsFresh(node: Node, ts: Tables, o: StoreObj, now: u64)
    requires node.crypto.Sound() && Plain(o)
    ensures var a := Apply(node, ts, o, now);
            a.stored.Some? ==>
              && ByGroup(node.clusters, o.group).Some? && Get(TableOf(ts, o.group), HashOf(o)).None?
              && o.timestamp <= now && !Expired(ByGroup(node.clusters, o.group).value.ttl, o.timestamp, now)
  {
    hide Sign, Compare, Store, DriverApply;
  }

  lemma SignedIsSendable(node: Node, o: StoreObj)
    requires node.crypto.Sound() && SignatureFits(node, o) && o.sign == [] && Sendable(o)
    ensures Fits(Signed(node, o)) && Authored(node.crypto, Signed(node, o), node.signingKey)
         && Sendable(Signed(node, o))
    ensures Signed(node, o) == o.(sign := Signed(node, o).sign, crc := Signed(node, o).crc)
  {
    hide Sign, Serialize, Authored;
    SignedIsAuthored(node.crypto, o, node.signingKey);
    SignedSign(node, o);
  }

  /** A record that the rule accepts from this node's own hand is signed by it, re-stamped or not. */
  lemma AcceptedIsAuthored(node: Node, ts: Tables, o: StoreObj, now: u64)
    requires node.crypto.Sound() && SignatureFits(node, o) && o.sign == [] && Sendable(o)
    ensures Fits(Signed(node, o))
    ensures var v := Decide(node, ts, Signed(node, o), now);
            v.Accept? ==> Authored(node.crypto, v.obj, node.signingKey) && Sendable(v.obj) && v.obj.flags == o.flags
  {
    hide Signed, Serialize, Authored, Sendable, Compare, Covers, FindKey, Get, Fits;
    SignedIsSendable(node, o);
    var x := FindKey(TableOf(ts, o.group), o.key);
    if x.Some? {
      RestampIsSigned(node, o, x.value);
    }
  }

  /** Re-stamping is signing the same record at a later time. */
  lemma RestampIsSigned(node: Node, o: StoreObj, x: Row)
    requires node.crypto.Sound() && SignatureFits(node, o) && o.sign == [] && Sendable(o)
    ensures Fits(Signed(node, o))
    ensures var r := Restamp(node, Signed(node, o), x);
            Authored(node.crypto, r, node.signingKey) && Sendable(r) && r.flags == o.flags
  {
    hide Sign, Serialize, Authored;
    SignedIsSendable(node, o);
    var o1 := o.(timestamp := (x.hash.ts + 1) % TWO_TO_64, crc := 0);
    SignedIsSendable(node, o1);
    assert Restamp(node, Signed(node, o), x) == Signed(node, o1);
  }

  /**
   What is announced: an accepted record of this node's own making, as it is written, unless it deletes
   a key that has no record. Records from elsewhere are not announced again.
   */
  lemma AnnouncedIff(node: Node, ts: Tables, o: StoreObj, now: u64)
    requires Fits(o) && Ascending(TableOf(ts, o.group))
    ensures Announced(node, ts, o, now)
         == if && Decide(node, ts, o, now).Accept? && IsNew(o.flags)
               && (IsDel(o.flags) ==> exists x :: x in TableOf(ts, o.group) && Matches(x, o.key))
            then Some(WrittenAs(node, ts, o)) else None
  {
    hide Decide, IsNew, IsDel, WrittenAs;
    WrittenMeans(node, ts, o, now);
  }

  /**
   What a local write or delete announces, re-stamped or not, passes the check of a peer that reads
   it from the wire, and is the record stored here whenever the driver stored one.
   */
  lemma AnnouncedChecks(node: Node, ts: Tables, o: StoreObj, now: u64, rest: bytes)
    requires node.crypto.Sound() && SignatureFits(node, o) && o.sign == [] && Sendable(o)
    requires Fits(Signed(node, o)) && Announced(node, ts, Signed(node, o), now).Some?
    ensures var news := Announced(node, ts, Signed(node, o), now).value;
            && var r := FillOne(Serialize(news) + rest);
            && r.Filled? && r.obj == news.(flags := MaskDel(o.flags)) && Fits(r.obj) && Check(node.crypto, r.obj)
    ensures var a, news := Apply(node, ts, Signed(node, o), now), Announced(node, ts, Signed(node, o), now);
            a.stored.Some? ==> a.stored == news
  {
    hide Decide, Signed, FillOne, Serialize, Authored, Check, DriverApply;
    AcceptedIsAuthored(node, ts, o, now);
    GossipChecks(node.crypto, Announced(node, ts, Signed(node, o), now).value, node.signingKey, rest);
  }

  // Read your write.

  /** At most one row answers to a text key. */
  ghost predicate Keyed(t: Table) {
    && ValidTable(t)
    && forall r, s :: r in t && s in t && r.key == s.key && Matches(r, r.key) && Matches(s, s.key) ==> r == s
  }

  /** After a store the record is found under its key exactly when its key is kept whole and something follows it. */
  lemma StoredIsFoundIff(t: Table, o: StoreObj)
    requires Keyed(t) && o.key != [] && Printable(o.key) && o.crc != 0 && WellSized(o.sign)
    ensures FindKey(Store(t, o), o.key) == (if Findable(o) then Some(RowOf(o)) else None)
    ensures |o.key| <= STORED_KEY_MAX ==> Keyed(Store(t, o))
  {
    hide Store;
    var t', prior := Store(t, o), FindKey(t, o.key);
    StoreMeans(t, o);
    assert WellKept(RowOf(o));
    forall x | x in t' && Matches(x, o.key) ensures x == RowOf(o) {
      if x in t {
        assert prior == Some(x);
      }
    }
    if Findable(o) {
      assert RowOf(o) in t' && Matches(RowOf(o), o.key);
    }
  }

  /**
   A successful local set is what the next get returns, also when the stored record was
   newer, exactly when the key is at most 511 bytes long; a longer key reads as absent.
   */
  lemma ReadYourWrite(node: Node, ts: Tables, group: bytes, key: bytes, value: bytes, timestamp: u64, now: u64)
    requires node.crypto.Sound() && SignatureFits(node, NewRecord(group, key, value, timestamp))
    requires Keyed(TableOf(ts, group))
    requires timestamp != 0 && forall r :: r in TableOf(ts, group) ==> r.hash.ts + 1 < TWO_TO_64
    ensures Fits(Signed(node, NewRecord(group, key, value, timestamp)))
    ensures var a, prior := Set(node, ts, group, key, value, timestamp, now), FindKey(TableOf(ts, group), key);
            a.code == RC_SUCCESS ==>
              && a.stored.Some?
              && Lookup(a.tables, group, key)
                == (if |key| <= 511 then Some((value, a.stored.value.timestamp)) else None)
              && (a.stored.value.timestamp == timestamp
                || (prior.Some? && a.stored.value.timestamp == prior.value.hash.ts + 1))
  {
    hide Signed, Apply, FindKey, Keyed, IsPinned, IsErase;
    var o := Signed(node, NewRecord(group, key, value, timestamp));
    SignedSign(node, NewRecord(group, key, value, timestamp));
    LocalFlags();
    assert o.group == group && o.key == key && o.value == value && o.timestamp == timestamp && o.flags == FLAG_NEW;
    if o.sign != [] {
      WriteThenRead(node, ts, o, now);
    }
  }

  /**
   Exactly when a local set succeeds: the node signs, the record is in order, the driver takes it, and
   what is stored under the key may be replaced. The stored record may be newer than the new one.
   */
  lemma SetSucceedsIff(node: Node, ts: Tables, group: bytes, key: bytes, value: bytes, timestamp: u64, now: u64)
    requires node.crypto.Sound() && SignatureFits(node, NewRecord(group, key, value, timestamp))
    requires Ascending(TableOf(ts, group))
    ensures Fits(Signed(node, NewRecord(group, key, value, timestamp)))
    ensures var o, y := Signed(node, NewRecord(group, key, value, timestamp)), FindKey(TableOf(ts, group), key);
            Set(node, ts, group, key, value, timestamp, now).code == RC_SUCCESS <==>
            && node.signingKey.Some? && InOrder(node, ts, o, now) && Writable(ts, WrittenAs(node, ts, o))
            && (y.Some? ==> Overrides(node, o, y.value))
  {
    hide Signed, Apply, FindKey, InOrder, Overrides, WrittenAs, Writable, IsErase, IsNew;
    var o := Signed(node, NewRecord(group, key, value, timestamp));
    SignedSign(node, NewRecord(group, key, value, timestamp));
    LocalFlags();
    assert o.group == group && o.key == key && o.flags == FLAG_NEW;
    SucceedsIff(node, ts, o, now);
  }

  /** Exactly when a local delete succeeds; without a signing key only an older record can be deleted. */
  lemma DeleteSucceedsIff(node: Node, ts: Tables, group: bytes, key: bytes, value: bytes, now: u64)
    requires node.crypto.Sound() && SignatureFits(node, Tombstone(group, key, value, now))
    requires Ascending(TableOf(ts, group))
    ensures Fits(Signed(node, Tombstone(group, key, value, now)))
    ensures var o, y := Signed(node, Tombstone(group, key, value, now)), FindKey(TableOf(ts, group), key);
            Delete(node, ts, group, key, value, now).code == RC_SUCCESS <==>
            && InOrder(node, ts, o, now) && Writable(ts, WrittenAs(node, ts, o))
            && (y.Some? ==> && Overrides(node, o, y.value)
                            && (node.signingKey.Some? || y.value.hash.Less(HashOf(o))))
  {
    hide Signed, Apply, FindKey, InOrder, Overrides, WrittenAs, Writable, IsErase, IsNew;
    var o := Signed(node, Tombstone(group, key, value, now));
    SignedSign(node, Tombstone(group, key, value, now));
    LocalFlags();
    assert o.group == group && o.key == key && o.flags == FLAG_NEW + FLAG_DEL;
    SucceedsIff(node, ts, o, now);
  }

  /**
   After a successful delete the key reads as a tombstone with the given value, exactly when the
   key is kept whole and the tombstone has a value or a signature.
   */
  lemma DeleteThenRead(node: Node, ts: Tables, group: bytes, key: bytes, value: bytes, now: u64)
    requires node.crypto.Sound() && SignatureFits(node, Tombstone(group, key, value, now))
    requires Keyed(TableOf(ts, group)) && now != 0 && forall r :: r in TableOf(ts, group) ==> r.hash.ts + 1 < TWO_TO_64
    ensures Fits(Signed(node, Tombstone(group, key, value, now)))
    ensures var a := Delete(node, ts, group, key, value, now);
            a.code == RC_SUCCESS ==>
              && a.stored.Some? && IsDel(a.stored.value.flags) && a.stored.value.value == value
              && FindKey(TableOf(a.tables, group), key)
                 == (if Findable(a.stored.value) then Some(RowOf(a.stored.value)) else None)
              && (|key| <= STORED_KEY_MAX && (value != [] || node.signingKey.Some?) ==> Findable(a.stored.value))
  {
    hide Signed, Apply, FindKey, Keyed, IsPinned, IsErase, IsDel;
    var o := Signed(node, Tombstone(group, key, value, now));
    SignedSign(node, Tombstone(group, key, value, now));
    LocalFlags();
    assert o.group == group && o.key == key && o.value == value && o.timestamp == now && o.flags == FLAG_NEW + FLAG_DEL;
    WriteThenRead(node, ts, o, now);
  }

  /** A tombstone is read like any other record: its value and its time. */
  lemma TombstoneIsRead(ts: Tables, group: bytes, r: Row)
    requires Tidy(TableOf(ts, group)) && r in TableOf(ts, group)
    ensures Lookup(ts, group, r.key) == Some((r.value, r.hash.ts))
  {
    TidyFind(TableOf(ts, group), r);
  }

  /** Whatever is written with success is found, if it can be found at all. */
  lemma WriteThenRead(node: Node, ts: Tables, o: StoreObj, now: u64)
    requires node.crypto.Sound() && Plain(o) && Keyed(TableOf(ts, o.group))
    requires o.timestamp != 0 && forall r :: r in TableOf(ts, o.group) ==> r.hash.ts + 1 < TWO_TO_64
    ensures var a, prior := Apply(node, ts, o, now), FindKey(TableOf(ts, o.group), o.key);
            a.code == RC_SUCCESS ==>
              && a.stored.Some?
              && FindKey(TableOf(a.tables, o.group), o.key)
                 == (if Findable(a.stored.value) then Some(RowOf(a.stored.value)) else None)
              && a.stored.value.key == o.key && a.stored.value.value == o.value && a.stored.value.flags == o.flags
              && (o.sign != [] ==> a.stored.value.sign != [])
              && (a.stored.value.timestamp == o.timestamp
                || (prior.Some? && a.stored.value.timestamp == prior.value.hash.ts + 1))
  {
    hide Apply, Store, Keyed, FindKey;
    AppliedMeans(node, ts, o, now);
    SuccessStores(node, ts, o, now);
    var a := Apply(node, ts, o, now);
    if a.code == RC_SUCCESS {
      StoredIsFoundIff(TableOf(ts, o.group), a.stored.value);
    }
  }

  /** The only success that writes nothing is a record with the blank hash. */
  lemma SuccessStores(node: Node, ts: Tables, o: StoreObj, now: u64)
    requires node.crypto.Sound() && Plain(o) && o.timestamp != 0
    requires forall r :: r in TableOf(ts, o.group) ==> r.hash.ts + 1 < TWO_TO_64
    ensures Apply(node, ts, o, now).code == RC_SUCCESS ==> Apply(node, ts, o, now).stored.Some?
  {
    hide Sign, Compare, Store;
  }

  /** Storing keeps the table tidy and the other keys' rows in place. */
  lemma StoreKeeps(t: Table, o: StoreObj)
    requires Tidy(t) && Findable(o) && o.key != [] && Printable(o.key) && o.crc != 0 && WellSized(o.sign)
    requires Get(t, HashOf(o)).None?
    ensures Tidy(Store(t, o))
    ensures FindKey(Store(t, o), o.key) == Some(RowOf(o))
    ensures forall k :: k != o.key ==> FindKey(Store(t, o), k) == FindKey(t, k)
    ensures forall x :: x in Store(t, o) ==> x == RowOf(o) || x in t
  {
    hide Store;
    var t', prior := Store(t, o), FindKey(t, o.key);
    StoreMeans(t, o);
    GetMeans(t, HashOf(o));
    assert WellKept(RowOf(o));
    hide WellKept;
    forall x | x in t && x.key == o.key ensures x !in t' || x == RowOf(o) {
      TidyFind(t, x);
    }
    forall x | x in t && x.key != o.key ensures x in t' {
      if prior.Some? {
        GetMeans(t, prior.value.hash);
      }
    }
    assert Tidy(t');
    TidyFind(t', RowOf(o));
    forall k | k != o.key ensures FindKey(t', k) == FindKey(t, k) {
      SameFind(t, t', k);
    }
  }

  lemma SameFind(t: Table, u: Table, k: bytes)
    requires Tidy(t) && Tidy(u) && forall x: Row :: x.key == k ==> (x in t <==> x in u)
    ensures FindKey(t, k) == FindKey(u, k)
  {
    var x, y := FindKey(t, k), FindKey(u, k);
    if x.Some? {
      TidyFind(u, x.value);
    }
    if y.Some? {
      TidyFind(t, y.value);
    }
  }
}
