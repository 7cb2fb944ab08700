/**
 Records on their way through the store: written to a table, packed by hash, unpacked by a
 peer and checked there.
 */
module StoredTransport {
  import opened Bytes
  import opened Packet
  import opened PacketPack
  import opened Envelope
  import opened MdbxTable
  import opened MdbxDriver

  /** The row fits a packet of its group. */
  predicate Packable(group: bytes, r: Row) {
    WellKept(r) && HEADER_SIZE + |group| + 1 + |r.key| + 1 + |r.value| + |r.sign| < TWO_TO_32
  }

  /** A row's packet is read back as the row's record, if the group name leaves room for its NUL. */
  lemma FillRowPacket(group: bytes, r: Row, rest: bytes)
    requires 0 !in group && 1 <= |group| < GROUP_NAME_SIZE_MAX && Packable(group, r)
    ensures FillOne(RowPacket(group, r) + rest) == Filled(Masked(ObjOf(group, r)), |RowPacket(group, r)|)
  {
    hide FillOne, RawPacket;
    FillRawPacket(r.hash.crc, r.hash.ts, MaskDel(r.flags), group + [0], r.key + [0], r.value, r.sign, rest);
    UpToNulOfCString(group, [0]);
    UpToNulOfCString(r.key, [0]);
  }

  /** A group name of the full permitted length makes the packet unreadable: its NUL is counted. */
  lemma LongGroupPacketIsBroken(group: bytes, r: Row, rest: bytes)
    requires |group| == GROUP_NAME_SIZE_MAX && Packable(group, r)
    ensures FillOne(RowPacket(group, r) + rest) == Broken
  {
    hide ReadHead, WriteHead;
    var g, k := group + [0], r.key + [0];
    var data := g + k + r.value + r.sign;
    var h := Head(r.hash.crc, r.hash.ts, |g|, |k|, |r.value|, |data|, MaskDel(r.flags));
    assert RowPacket(group, r) + rest == WriteHead(h) + (data + rest);
    ReadWrittenHead(h, data + rest);
  }

  function MaskedObjs(group: bytes, rows: Table): (r: seq<StoreObj>)
    ensures |r| == |rows| && forall i :: 0 <= i < |rows| ==> r[i] == Masked(ObjOf(group, rows[i]))
  {
    seq(|rows|, i requires 0 <= i < |rows| => Masked(ObjOf(group, rows[i])))
  }

  /**
   A pack made by hash delivers the records of all its rows exactly when the group name is
   shorter than the limit; a name of the full length makes the peer reject the whole pack.
   */
  lemma UnpackRowsIff(group: bytes, rows: Table)
    requires 0 !in group && 1 <= |group| <= GROUP_NAME_SIZE_MAX
    requires 1 <= |rows| <= PACK_MAX_COUNT && forall r :: r in rows ==> Packable(group, r)
    ensures |group| < GROUP_NAME_SIZE_MAX ==>
              UnpackOf(PackRows(group, rows)) == Delivered(MaskedObjs(group, rows), Some(|PackRows(group, rows).data|))
    ensures |group| == GROUP_NAME_SIZE_MAX ==> UnpackOf(PackRows(group, rows)) == Rejected
  {
    hide FillOne, RowPacket, Packable;
    var ps := RowPackets(group, rows);
    if |group| < GROUP_NAME_SIZE_MAX {
      forall i | 0 <= i < |rows| ensures ReadsAs(ps[i], MaskedObjs(group, rows)[i]) {
        forall rest: bytes ensures FillOne(ps[i] + rest) == Filled(MaskedObjs(group, rows)[i], |ps[i]|) {
          FillRowPacket(group, rows[i], rest);
        }
      }
      UnpackConcat(ps, MaskedObjs(group, rows));
    } else {
      var rest := FirstThenRest(ps);
      LongGroupPacketIsBroken(group, rows[0], rest);
    }
  }

  lemma {:induction false} FirstThenRest(ps: seq<bytes>) returns (rest: bytes)
    requires ps != []
    ensures Concat(ps) == ps[0] + rest
  {
    if |ps| == 1 {
      rest := [];
      assert Concat(ps[..0]) == [];
      assert Concat(ps) == [] + ps[0];
    } else {
      var k := |ps| - 1;
      var rest' := FirstThenRest(ps[..k]);
      rest := rest' + ps[k];
      assert Concat(ps) == ps[0] + rest;
    }
  }

  /** The stored row keeps everything of a record with a storable key but its NEW flag. */
  lemma StoredObj(o: StoreObj)
    ensures ObjOf(o.group, RowOf(o)) == o.(flags := ClearNew(o.flags)) <==> |o.key| <= STORED_KEY_MAX
    ensures MaskDel(ClearNew(o.flags)) == MaskDel(o.flags)
  {
  }

  /** The hash of a stored record finds its row. */
  lemma StoredIsAnswered(t: Table, o: StoreObj)
    requires Ascending(t)
    ensures FoundRows(Store(t, o), [HashOf(o)]) == [RowOf(o)]
  {
    hide Store;
    StoreMeans(t, o);
    GetMeans(Store(t, o), HashOf(o));
    assert RowOf(o) in Store(t, o);
    assert [HashOf(o)][..0] == [];
  }

  /**
   An authored record that was stored in any table, found by its hash, packed and unpacked passes
   the peer's check, and the peer reads the author's record.
   */
  lemma StoredChecks(c: Crypto, t: Table, o: StoreObj, key: Option<bytes>)
    requires c.Sound() && Authored(c, o, key) && Ascending(t)
    requires 0 !in o.group && 1 <= |o.group| < GROUP_NAME_SIZE_MAX
    requires |o.key| <= STORED_KEY_MAX && Packable(o.group, RowOf(o))
    ensures var r := UnpackOf(PackRows(o.group, FoundRows(Store(t, o), [HashOf(o)])));
            r.Delivered? && r.objs == [Masked(o)]
    ensures Fits(Masked(o)) && Check(c, Masked(o))
  {
    hide FillOne, RowPacket, Sign, Body, PackRows, UnpackOf, Check, Serialize, Authored, Store, FoundRows, Packable;
    StoredIsAnswered(t, o);
    AuthoredChecks(c, o, key);
    StoredObj(o);
    UnpackRowsIff(o.group, [RowOf(o)]);
    assert MaskedObjs(o.group, [RowOf(o)]) == [Masked(o)];
    CheckIgnoresLocalFlags(c, o, MaskDel(o.flags));
  }
}
