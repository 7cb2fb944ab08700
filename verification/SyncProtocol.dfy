/** The handlers of the synchronisation channel: HASHES, REQUEST and RECORD_PACK packets. */
module SyncProtocol {
  import opened Bytes
  import opened DriverHash
  import opened Packet
  import opened PacketPack
  import opened Envelope
  import opened MdbxTable
  import opened MdbxDriver
  import opened GlobalDb

  /** The offered hashes that the table does not hold. */
  function Missing(t: Table, hs: seq<Hash>): (r: seq<Hash>)
    ensures |r| <= |hs|
  {
    if hs == [] then []
    else
      var k := |hs| - 1;
      if Get(t, hs[k]).None? then Missing(t, hs[..k]) + [hs[k]] else Missing(t, hs[..k])
  }

  lemma {:induction false} MissingMeans(t: Table, hs: seq<Hash>, h: Hash)
    ensures h in Missing(t, hs) <==> h in hs && Get(t, h).None?
  {
    if hs != [] {
      var k := |hs| - 1;
      MissingMeans(t, hs[..k], h);
      assert h in hs <==> h in hs[..k] || h == hs[k];
    }
  }

  /** `s_process_hashes`: the hash array is compacted in place; the first j entries go into a REQUEST. */
  method ProcessHashes(driver: Driver, group: bytes, hs: array<Hash>) returns (j: nat)
    requires driver.Valid()
    modifies hs
    ensures j <= hs.Length
    ensures hs[..j] == Missing(TableOf(driver.tables, group), old(hs[..]))
  {
    j := 0;
    var i := 0;
    ghost var t := TableOf(driver.tables, group);
    while i < hs.Length
      invariant 0 <= j <= i <= hs.Length
      invariant hs[..j] == Missing(t, old(hs[..])[..i])
      invariant forall k :: i <= k < hs.Length ==> hs[k] == old(hs[k])
    {
      var held := driver.IsHash(group, hs[i]);
      HeldMeans(driver.tables, group, hs[i]);
      assert old(hs[..])[..i + 1][..i] == old(hs[..])[..i];
      if !held {
        ghost var before := hs[..j];
        if i != j {
          hs[j] := hs[i];
        }
        assert hs[..j] == before && hs[..j + 1] == before + [old(hs[i])];
        j := j + 1;
      }
      i := i + 1;
    }
    assert old(hs[..])[..i] == old(hs[..]);
  }

  /** `s_process_request`: the requested rows that are present, as a pack. */
  function Answer(group: bytes, t: Table, hs: seq<Hash>): Option<Pack> {
    var rows := FoundRows(t, hs);
    if rows == [] then None else Some(PackRows(group, rows))
  }

  /** `dap_global_db_ch_check_store_obj`: envelope, known cluster, and a sender that belongs to it. */
  predicate PeerCheck(node: Node, o: StoreObj, member: bool) {
    Fits(o) && Check(node.crypto, o) && ByGroup(node.clusters, o.group).Some? && member
  }

  /** One record that fails the check spoils its whole pack; what passes is written as one list. */
  function AfterRecords(node: Node, ts: Tables, objs: seq<StoreObj>, member: bool, nows: seq<u64>): Tables
    requires |nows| == |objs|
  {
    if objs != [] && forall o :: o in objs ==> PeerCheck(node, o, member) then Committed(node, ts, objs, nows) else ts
  }

  /** The record is what its author signed and checksummed. */
  ghost predicate Genuine(c: Crypto, o: StoreObj) {
    Fits(o) && (o.sign != [] ==> c.verify(o.sign, Body(Unsigned(o)))) && c.crc64(Body(o)) == o.crc
  }

  /**
   A pack is written exactly when it comes from a member and every record of it is genuine and of a known
   group; one forged or foreign record, or a stranger as the sender, leaves the tables as they are.
   */
  lemma PackIsWrittenIff(node: Node, ts: Tables, objs: seq<StoreObj>, member: bool, nows: seq<u64>)
    requires |nows| == |objs|
    ensures var good := objs != [] && member && forall o :: o in objs ==>
                          Genuine(node.crypto, o) && ByGroup(node.clusters, o.group).Some?;
            && (good ==> (forall o :: o in objs ==> Fits(o))
                         && AfterRecords(node, ts, objs, member, nows) == Committed(node, ts, objs, nows))
            && (!good ==> AfterRecords(node, ts, objs, member, nows) == ts)
  {
    hide Check, Committed, Body, ByGroup;
    forall o | o in objs
      ensures PeerCheck(node, o, member) <==>
              member && Genuine(node.crypto, o) && ByGroup(node.clusters, o.group).Some?
    {
      if Fits(o) {
        CheckMeans(node.crypto, o);
      }
    }
    if objs != [] && !member {
      assert !PeerCheck(node, objs[0], member) && objs[0] in objs;
    } else if o :| o in objs && !(Genuine(node.crypto, o) && ByGroup(node.clusters, o.group).Some?) {
      assert !PeerCheck(node, o, member);
    }
  }

  /** `s_process_records`. */
  method ProcessRecords(db: Db, objs: seq<StoreObj>, member: bool, nows: seq<u64>)
    requires db.Valid() && |nows| == |objs| && forall o :: o in objs ==> Fits(o) && WellSized(o.sign)
    modifies db.driver
    ensures db.Valid()
    ensures db.driver.tables == AfterRecords(db.node, old(db.driver.tables), objs, member, nows)
  {
    hide Check, ApplyAll, Committed;
    var success, i := false, 0;
    while i < |objs|
      invariant 0 <= i <= |objs|
      invariant forall k :: 0 <= k < i ==> PeerCheck(db.node, objs[k], member)
      invariant success <==> i > 0
    {
      success := Check(db.node.crypto, objs[i]) && ByGroup(db.node.clusters, objs[i].group).Some? && member;
      if !success {
        assert objs[i] in objs && !PeerCheck(db.node, objs[i], member);
        break;
      }
      i := i + 1;
    }
    if success {
      var _ := db.SetRawSync(objs, nows);
    }
  }
}
