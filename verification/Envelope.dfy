/**
 The signing envelope of a record: a signature over the packet without checksum and
 signature, and a checksum over the packet without the checksum field.
 */
module Envelope {
  import opened Bytes
  import opened Packet

  /** The cryptographic primitives, as functions the model knows only by `Sound`. */
  datatype Crypto = Crypto(crc64: bytes -> u64, create: (bytes, bytes) -> bytes, verify: (bytes, bytes) -> bool,
                           pkey: bytes -> bytes, address: bytes -> u64) {
    /** A created signature announces its own size and verifies over the data it was made for. */
    ghost predicate Sound() {
      forall key, data :: var s := create(key, data); s != [] && SignSize(s) == |s| && verify(s, data)
    }
  }

  /** The lengths of the record fit the packet's fields. */
  predicate Fits(o: StoreObj) {
    && |o.group| < TWO_TO_16 && |o.key| < TWO_TO_16
    && HEADER_SIZE + |o.group| + |o.key| + |o.value| + |o.sign| < TWO_TO_32
  }

  /** The packet with its `data_len` field overwritten. */
  function WithDataLen(packet: bytes, dataLen: nat): (r: bytes)
    requires |packet| >= HEADER_SIZE
    ensures |r| == |packet|
  {
    packet[..24] + LE(4, dataLen) + packet[28..]
  }

  /** The `data_len` field of a packet. */
  function DataLen(packet: bytes): (n: nat)
    requires |packet| >= HEADER_SIZE
    ensures n < TWO_TO_32
  {
    ReadHead(packet).dataLen
  }

  /**
   What the sign and checksum routines read: from behind the checksum up to the announced
   size. The packets they are given announce sizes within the packet.
   */
  function Covered(packet: bytes): (r: bytes)
    requires |packet| >= HEADER_SIZE
  {
    var size := PacketSize(DataLen(packet));
    if 8 <= size <= |packet| then packet[8..size] else []
  }

  /** The signature and checksum made by `dap_store_obj_sign`. */
  function Sign(c: Crypto, o: StoreObj, key: Option<bytes>): (r: (bytes, u64))
    requires Fits(o)
  {
    var packet := Serialize(o);
    if key.None? then ([], c.crc64(Covered(packet)))
    else
      var sign := c.create(key.value, Covered(packet));
      (sign, c.crc64(Covered(WithDataLen(packet, DataLen(packet) + |sign|) + sign)))
  }

  /** `dap_global_db_pkt_check_sign_crc`. */
  predicate Check(c: Crypto, o: StoreObj)
    requires Fits(o)
  {
    var packet := Serialize(o);
    var signedLen := |o.group| + |o.key| + |o.value|;
    && (o.sign != [] ==> c.verify(packet[HEADER_SIZE + signedLen..], Covered(WithDataLen(packet, signedLen))))
    && c.crc64(Covered(packet)) == o.crc
  }

  // The bytes under the checksum and under the signature, read off the record itself.

  function Body(o: StoreObj): bytes
    requires Fits(o)
  {
    Serialize(o)[8..]
  }

  function Unsigned(o: StoreObj): StoreObj { o.(sign := []) }

  function HeadOf(o: StoreObj): Head {
    Head(o.crc, o.timestamp, |o.group|, |o.key|, |o.value|, |o.group| + |o.key| + |o.value| + |o.sign|,
         MaskDel(o.flags))
  }

  lemma PacketOf(o: StoreObj)
    requires Fits(o)
    ensures var packet := Serialize(o);
            && |packet| == HEADER_SIZE + HeadOf(o).dataLen && ReadHead(packet) == HeadOf(o)
            && Covered(packet) == Body(o)
  {
    hide ReadHead, WriteHead;
    ReadWrittenHead(HeadOf(o), o.group + o.key + o.value + o.sign);
    var packet := Serialize(o);
    assert packet[8..|packet|] == packet[8..];
  }

  lemma OverwriteDataLen(h: Head, rest: bytes, dataLen: nat)
    requires h.Fits() && dataLen < TWO_TO_32
    ensures WithDataLen(WriteHead(h) + rest, dataLen) == WriteHead(h.(dataLen := dataLen)) + rest
  {
  }

  /** Appending a signature to the packet gives the packet of the signed record. */
  lemma AppendSign(o: StoreObj, sign: bytes)
    requires Fits(o) && Fits(o.(sign := o.sign + sign))
    ensures var packet := Serialize(o);
            WithDataLen(packet, DataLen(packet) + |sign|) + sign == Serialize(o.(sign := o.sign + sign))
  {
    hide ReadHead, WriteHead, WithDataLen;
    PacketOf(o);
    var o' := o.(sign := o.sign + sign);
    var data := o.group + o.key + o.value + o.sign;
    OverwriteDataLen(HeadOf(o), data, |data| + |sign|);
    assert data + sign == o.group + o.key + o.value + o'.sign;
    assert (WriteHead(HeadOf(o')) + data) + sign == WriteHead(HeadOf(o')) + (data + sign);
  }

  /** What is covered of a packet that announces less than it holds. */
  lemma CoveredOfHead(h: Head, data: bytes)
    requires h.Fits() && HEADER_SIZE + h.dataLen < TWO_TO_32 && h.dataLen <= |data|
    ensures (WriteHead(h) + data)[HEADER_SIZE + h.dataLen..] == data[h.dataLen..]
    ensures Covered(WriteHead(h) + data) == (WriteHead(h) + data[..h.dataLen])[8..]
  {
    hide ReadHead, WriteHead;
    ReadWrittenHead(h, data);
    var packet, n := WriteHead(h) + data, HEADER_SIZE + h.dataLen;
    assert packet[8..n] == packet[..n][8..] && packet[..n] == WriteHead(h) + data[..h.dataLen];
  }

  lemma SerializedHead(o: StoreObj)
    requires Fits(o)
    ensures Serialize(o) == WriteHead(HeadOf(o)) + (o.group + o.key + o.value + o.sign) && HeadOf(o).Fits()
  {
    hide WriteHead;
  }

  /** Cutting the signature off the packet leaves the packet of the unsigned record under the signature. */
  lemma CutSign(o: StoreObj)
    requires Fits(o)
    ensures var packet, n := Serialize(o), |o.group| + |o.key| + |o.value|;
            && packet[HEADER_SIZE + n..] == o.sign
            && Covered(WithDataLen(packet, n)) == Body(Unsigned(o))
  {
    hide Serialize, WriteHead, WithDataLen, Covered, Head.Fits;
    var n, data := |o.group| + |o.key| + |o.value|, o.group + o.key + o.value + o.sign;
    var h := HeadOf(o).(dataLen := n);
    SerializedHead(o);
    SerializedHead(Unsigned(o));
    OverwriteDataLen(HeadOf(o), data, n);
    assert data[..n] == o.group + o.key + o.value + [] && data[n..] == o.sign && HeadOf(Unsigned(o)) == h;
    CoveredOfHead(h, data);
    SameTail(WriteHead(h), WriteHead(HeadOf(o)), data, HEADER_SIZE + n);
  }

  lemma SameTail(a: bytes, b: bytes, data: bytes, n: nat)
    requires |a| == |b| <= n <= |a| + |data|
    ensures (a + data)[n..] == (b + data)[n..]
  {
  }

  /** The check is a statement about the record: signature over the unsigned body, checksum over the body. */
  lemma CheckMeans(c: Crypto, o: StoreObj)
    requires Fits(o)
    ensures Check(c, o) <==> (o.sign != [] ==> c.verify(o.sign, Body(Unsigned(o)))) && c.crc64(Body(o)) == o.crc
  {
    hide Serialize, Covered, WithDataLen;
    PacketOf(o);
    CutSign(o);
  }

  /** The checksum field is outside what is signed and checksummed. */
  lemma BodyIgnoresCrc(o: StoreObj, crc: u64)
    requires Fits(o)
    ensures Body(o) == Body(o.(crc := crc))
  {
  }

  /** Flags other than DEL do not take part in the envelope. */
  lemma CheckIgnoresLocalFlags(c: Crypto, o: StoreObj, flags: byte)
    requires Fits(o) && MaskDel(flags) == MaskDel(o.flags)
    ensures Check(c, o.(flags := flags)) == Check(c, o)
  {
    CheckMeans(c, o);
    CheckMeans(c, o.(flags := flags));
    assert Serialize(o.(flags := flags)) == Serialize(o);
    assert Serialize(Unsigned(o.(flags := flags))) == Serialize(Unsigned(o));
  }

  /** A record signed and checksummed by its author. */
  ghost predicate Authored(c: Crypto, o: StoreObj, key: Option<bytes>)
  {
    && Fits(Unsigned(o))
    && (key.Some? ==> Fits(o.(sign := c.create(key.value, Body(Unsigned(o))))))
    && (o.sign, o.crc) == Sign(c, Unsigned(o), key)
  }

  /** The signature is over the unsigned body, and the checksum over the body that carries it. */
  lemma SignMeans(c: Crypto, o: StoreObj, key: Option<bytes>)
    requires Fits(o) && o.sign == [] && (key.Some? ==> Fits(o.(sign := c.create(key.value, Body(o)))))
    ensures var sign := if key.Some? then c.create(key.value, Body(o)) else [];
            Sign(c, o, key) == (sign, c.crc64(Body(o.(sign := sign))))
  {
    hide Serialize, Covered, WithDataLen, DataLen;
    PacketOf(o);
    if key.Some? {
      var sign := c.create(key.value, Body(o));
      AppendSign(o, sign);
      assert o.(sign := o.sign + sign) == o.(sign := sign);
      PacketOf(o.(sign := sign));
    } else {
      assert o.(sign := []) == o;
    }
  }

  /** What the node signs, it has authored: the checksum that was there before does not matter. */
  lemma SignedIsAuthored(c: Crypto, o: StoreObj, key: Option<bytes>)
    requires Fits(o) && o.sign == [] && (key.Some? ==> Fits(o.(sign := c.create(key.value, Body(o)))))
    ensures var (sign, crc) := Sign(c, o, key); Authored(c, o.(sign := sign, crc := crc), key)
  {
    hide Serialize, Sign, Body;
    var (sign, crc) := Sign(c, o, key);
    var u := o.(crc := crc);
    BodyIgnoresCrc(o, crc);
    SignMeans(c, o, key);
    SignMeans(c, u, key);
    BodyIgnoresCrc(o.(sign := sign), crc);
    assert Unsigned(o.(sign := sign, crc := crc)) == u && u.(sign := sign) == o.(sign := sign).(crc := crc);
  }

  /** The author's own record passes the check. */
  lemma AuthoredChecks(c: Crypto, o: StoreObj, key: Option<bytes>)
    requires c.Sound() && Authored(c, o, key)
    ensures Fits(o) && Check(c, o)
  {
    hide Serialize, Covered, WithDataLen, DataLen, Check;
    var u := Unsigned(o);
    PacketOf(u);
    if key.Some? {
      AppendSign(u, o.sign);
      assert u.(sign := u.sign + o.sign) == o;
      PacketOf(o);
    } else {
      assert u == o;
    }
    CheckMeans(c, o);
  }

  /** Gossip: an authored record passes the check after it was serialised and read back. */
  lemma GossipChecks(c: Crypto, o: StoreObj, key: Option<bytes>, rest: bytes)
    requires c.Sound() && Authored(c, o, key) && Sendable(o)
    ensures var r := FillOne(Serialize(o) + rest);
            r.Filled? && Fits(r.obj) && Check(c, r.obj) && r.obj == o.(flags := MaskDel(o.flags))
  {
    AuthoredChecks(c, o, key);
    FillSerialized(o, rest);
    CheckIgnoresLocalFlags(c, o, MaskDel(o.flags));
  }
}
