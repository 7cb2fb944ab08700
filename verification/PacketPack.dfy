/** Packs of record packets: appending to a pack and reading all records of a pack back. */
module PacketPack {
  import opened Bytes
  import opened Packet

  /** A pack: the announced number of packets and their bytes. */
  datatype Pack = Pack(count: nat, data: bytes)

  const EMPTY := Pack(0, [])

  /** `dap_global_db_pkt_pack`: append as many bytes of the packet as its own header announces. */
  function Append(p: Pack, packet: bytes): Pack
    requires HEADER_SIZE <= |packet| && PacketSize(ReadHead(packet).dataLen) <= |packet|
  {
    Pack(p.count + 1, p.data + packet[..PacketSize(ReadHead(packet).dataLen)])
  }

  /**
   A serialised record is appended whole exactly when its packet length fits 32 bits; otherwise
   the computed size is 0 and the pack counts a packet that it does not hold.
   */
  lemma AppendWholeIff(p: Pack, o: StoreObj)
    requires Sendable(o)
    ensures var packet := Serialize(o);
            && PacketSize(ReadHead(packet).dataLen) <= |packet|
            && Append(p, packet) == Pack(p.count + 1, if Appendable(o) then p.data + packet else p.data)
            && (Append(p, packet) == Pack(p.count + 1, p.data + packet) <==> Appendable(o))
  {
    hide WriteHead, ReadHead;
    var packet := Serialize(o);
    var h := Head(o.crc, o.timestamp, |o.group|, |o.key|, |o.value|, |packet| - HEADER_SIZE, MaskDel(o.flags));
    ReadWrittenHead(h, o.group + o.key + o.value + o.sign);
    assert packet[..|packet|] == packet && p.data + packet[..0] == p.data;
    assert |p.data + packet| > |p.data|;
  }

  /** The pack made by appending the serialised records one after the other. */
  function PackAll(objs: seq<StoreObj>): (p: Pack)
    requires forall o :: o in objs ==> Appendable(o)
    ensures p.count == |objs|
    ensures objs != [] ==> |p.data| > HEADER_SIZE
  {
    if objs == [] then EMPTY
    else
      var last := objs[|objs| - 1];
      assert Appendable(last);
      AppendWholeIff(PackAll(objs[..|objs| - 1]), last);
      Append(PackAll(objs[..|objs| - 1]), Serialize(last))
  }

  datatype Parse = Parsed(objs: seq<StoreObj>, used: nat) | Stopped(objs: seq<StoreObj>) | Overran {
    /** The same outcome after the objects and bytes that were read before. */
    function After(objs0: seq<StoreObj>, used0: nat): Parse {
      match this
      case Parsed(os, n) => Parsed(objs0 + os, used0 + n)
      case Stopped(os) => Stopped(objs0 + os)
      case Overran => Overran
    }
  }

  /** Reading n packets from the front of b; a broken packet ends the reading. */
  function ParseAll(b: bytes, n: nat): (r: Parse)
    ensures r.Parsed? ==> |r.objs| == n && r.used <= |b|
    ensures r.Stopped? ==> |r.objs| < n
    decreases n
  {
    if n == 0 then Parsed([], 0)
    else match FillOne(b)
      case Broken => Stopped([])
      case Overrun => Overran
      case Filled(o, used) => ParseAll(b[used..], n - 1).After([o], used)
  }

  /** The delivered records, and where the cursor stands unless a broken packet was met. */
  datatype Unpacked = Rejected | Delivered(objs: seq<StoreObj>, end: Option<nat>) | OutOfBounds

  ghost function UnpackOf(p: Pack): Unpacked {
    if |p.data| < HEADER_SIZE || p.count == 0 || p.count > PACK_MAX_COUNT then Rejected
    else match ParseAll(p.data, p.count)
      case Parsed(objs, used) => Delivered(objs, Some(used))
      case Stopped(objs) => if objs == [] then Rejected else Delivered(objs, None)
      case Overran => OutOfBounds
  }

  /** `dap_global_db_pkt_pack_deserialize`: a cursor moves over the data, one packet a turn. */
  method PackDeserialize(p: Pack) returns (r: Unpacked)
    ensures r == UnpackOf(p)
  {
    hide FillOne, ParseAll;
    if |p.data| < HEADER_SIZE {
      return Rejected;
    }
    if p.count > PACK_MAX_COUNT || p.count == 0 {
      return Rejected;
    }
    var objs, cursor, i := [], 0, 0;
    AfterNothing(ParseAll(p.data, p.count));
    assert p.data[0..] == p.data;
    while i < p.count
      invariant 0 <= i <= p.count && 0 <= cursor <= |p.data| && |objs| == i
      invariant ParseAll(p.data, p.count) == ParseAll(p.data[cursor..], p.count - i).After(objs, cursor)
    {
      ParseStep(p.data[cursor..], p.count - i, objs, cursor);
      var fill := FillOne(p.data[cursor..]);
      match fill {
        case Broken =>
          return if objs == [] then Rejected else Delivered(objs, None);
        case Overrun =>
          return OutOfBounds;
        case Filled(o, used) =>
          assert p.data[cursor..][used..] == p.data[cursor + used..];
          objs, cursor, i := objs + [o], cursor + used, i + 1;
      }
    }
    ParseNone(p.data[cursor..]);
    return Delivered(objs, Some(cursor));
  }

  function Masked(o: StoreObj): StoreObj { o.(flags := MaskDel(o.flags)) }

  function MaskedAll(objs: seq<StoreObj>): (r: seq<StoreObj>)
    ensures |r| == |objs|
  {
    seq(|objs|, i requires 0 <= i < |objs| => Masked(objs[i]))
  }

  /** Packets written back to back. */
  function Concat(ps: seq<bytes>): bytes {
    if ps == [] then [] else Concat(ps[..|ps| - 1]) + ps[|ps| - 1]
  }

  /** The bytes are read as this record, whatever follows them. */
  ghost predicate ReadsAs(packet: bytes, o: StoreObj) {
    forall rest: bytes :: FillOne(packet + rest) == Filled(o, |packet|)
  }

  lemma AfterNothing(r: Parse)
    ensures r.After([], 0) == r
  {
  }

  lemma AfterAfter(r: Parse, objs0: seq<StoreObj>, used0: nat, objs1: seq<StoreObj>, used1: nat)
    ensures r.After(objs1, used1).After(objs0, used0) == r.After(objs0 + objs1, used0 + used1)
  {
    if !r.Overran? {
      assert objs0 + (objs1 + r.objs) == (objs0 + objs1) + r.objs;
    }
  }

  lemma ParseNone(b: bytes)
    ensures ParseAll(b, 0) == Parsed([], 0)
  {
  }

  /** One turn of the reading, after what was read before. */
  lemma ParseStep(b: bytes, n: nat, objs: seq<StoreObj>, cursor: nat)
    requires n > 0
    ensures var all := ParseAll(b, n).After(objs, cursor);
            match FillOne(b)
            case Broken => all == Stopped(objs)
            case Overrun => all == Overran
            case Filled(o, used) => used <= |b| && all == ParseAll(b[used..], n - 1).After(objs + [o], cursor + used)
  {
    hide FillOne;
    var fill := FillOne(b);
    if fill.Filled? {
      AfterAfter(ParseAll(b[fill.used..], n - 1), objs, cursor, [fill.obj], fill.used);
    }
  }

  lemma ParseOne(packet: bytes, o: StoreObj, rest: bytes, n: nat)
    requires ReadsAs(packet, o)
    ensures ParseAll(packet + rest, n + 1) == ParseAll(rest, n).After([o], |packet|)
  {
    hide FillOne;
    assert (packet + rest)[|packet|..] == rest;
  }

  /** Reading goes through any sequence of readable packets. */
  lemma {:induction false} ParseConcat(ps: seq<bytes>, objs: seq<StoreObj>, rest: bytes, n: nat)
    requires |ps| == |objs| && forall i :: 0 <= i < |ps| ==> ReadsAs(ps[i], objs[i])
    ensures ParseAll(Concat(ps) + rest, |ps| + n) == ParseAll(rest, n).After(objs, |Concat(ps)|)
  {
    hide FillOne, ReadsAs;
    if ps == [] {
      assert Concat(ps) + rest == rest;
      AfterNothing(ParseAll(rest, n));
    } else {
      var k := |ps| - 1;
      assert Concat(ps) + rest == Concat(ps[..k]) + (ps[k] + rest);
      ParseConcat(ps[..k], objs[..k], ps[k] + rest, n + 1);
      ParseOne(ps[k], objs[k], rest, n);
      assert objs == objs[..k] + [objs[k]];
      AfterAfter(ParseAll(rest, n), objs[..k], |Concat(ps[..k])|, [objs[k]], |ps[k]|);
    }
  }

  /** A pack is rejected exactly when its counts are out of range or its first packet is broken. */
  lemma RejectedIff(p: Pack)
    ensures UnpackOf(p).Rejected? <==>
            |p.data| < 29 || !(1 <= p.count <= 1024) || FillOne(p.data).Broken?
  {
    hide FillOne;
    assert p.count > 0 && FillOne(p.data).Filled? ==>
      ParseAll(p.data, p.count) == ParseAll(p.data[FillOne(p.data).used..], p.count - 1).After([FillOne(p.data).obj],
                                                                                             FillOne(p.data).used);
  }

  /** What is behind a broken packet is lost, what is before it is delivered; an overrun spoils the pack. */
  lemma UnpackUpTo(ps: seq<bytes>, objs: seq<StoreObj>, rest: bytes, n: nat)
    requires 1 <= |ps| == |objs| && n > 0 && |ps| + n <= PACK_MAX_COUNT
    requires forall i :: 0 <= i < |ps| ==> ReadsAs(ps[i], objs[i])
    requires !FillOne(rest).Filled?
    ensures UnpackOf(Pack(|ps| + n, Concat(ps) + rest))
         == if FillOne(rest).Broken? then Delivered(objs, None) else OutOfBounds
  {
    hide FillOne;
    ParseConcat(ps, objs, rest, n);
    assert objs + [] == objs;
    assert ReadsAs(ps[|ps| - 1], objs[|ps| - 1]);
    assert FillOne(ps[|ps| - 1] + []).used == |ps[|ps| - 1]|;
  }

  /** A pack of readable packets within the pack limit is delivered in full. */
  lemma UnpackConcat(ps: seq<bytes>, objs: seq<StoreObj>)
    requires 1 <= |ps| == |objs| <= PACK_MAX_COUNT
    requires forall i :: 0 <= i < |ps| ==> ReadsAs(ps[i], objs[i])
    ensures UnpackOf(Pack(|ps|, Concat(ps))) == Delivered(objs, Some(|Concat(ps)|))
  {
    hide FillOne;
    ParseConcat(ps, objs, [], 0);
    assert Concat(ps) + [] == Concat(ps);
    assert objs + [] == objs;
    assert ReadsAs(ps[|ps| - 1], objs[|ps| - 1]);
    assert FillOne(ps[|ps| - 1] + []).used == |ps[|ps| - 1]|;
  }

  function Packets(objs: seq<StoreObj>): (ps: seq<bytes>)
    ensures |ps| == |objs| && forall i :: 0 <= i < |objs| ==> ps[i] == Serialize(objs[i])
  {
    seq(|objs|, i requires 0 <= i < |objs| => Serialize(objs[i]))
  }

  lemma {:induction false} PackAllIsConcat(objs: seq<StoreObj>)
    requires forall o :: o in objs ==> Appendable(o)
    ensures PackAll(objs) == Pack(|objs|, Concat(Packets(objs)))
  {
    hide Serialize, Append;
    if objs != [] {
      assert objs[|objs| - 1] in objs;
      var init := objs[..|objs| - 1];
      PackAllIsConcat(init);
      AppendWholeIff(PackAll(init), objs[|objs| - 1]);
      assert Packets(objs)[..|objs| - 1] == Packets(init);
    }
  }

  /**
   Unpacking a pack of valid records returns them in order, flags reduced to the DEL bit,
   with the cursor exactly at the end of the data.
   */
  lemma PackRoundTrip(objs: seq<StoreObj>)
    requires 1 <= |objs| <= PACK_MAX_COUNT
    requires forall o :: o in objs ==> Appendable(o)
    ensures UnpackOf(PackAll(objs)) == Delivered(MaskedAll(objs), Some(|PackAll(objs).data|))
  {
    hide FillOne, Serialize, UnpackOf, PackAll;
    forall i | 0 <= i < |objs| ensures ReadsAs(Packets(objs)[i], MaskedAll(objs)[i]) {
      forall rest: bytes ensures FillOne(Packets(objs)[i] + rest) == Filled(Masked(objs[i]), |Packets(objs)[i]|) {
        assert Appendable(objs[i]);
        FillSerialized(objs[i], rest);
      }
    }
    UnpackConcat(Packets(objs), MaskedAll(objs));
    PackAllIsConcat(objs);
  }
}
