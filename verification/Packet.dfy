/**
 The wire codec for records: one packed packet per record and packs of packets.
 All integers are in host (little-endian) order and the structures are packed, so a packet
 is a 29-byte header followed by group, key, value and signature.
 */
module Packet {
  import opened Bytes

  const HEADER_SIZE: nat := 29
  const SIGN_HEADER_SIZE: nat := 14
  const GROUP_NAME_SIZE_MAX: nat := 128
  const KEY_SIZE_MAX: nat := 512
  const PACK_MAX_COUNT: nat := 1024

  /** A record in memory. `sign == []` stands for a NULL signature pointer. */
  datatype StoreObj = StoreObj(group: bytes, key: bytes, value: bytes, flags: byte,
                               sign: bytes, timestamp: u64, crc: u64)

  // Record flags: DEL is bit 0, PINNED bit 1, NEW bit 6 and ERASE bit 7.
  function MaskDel(flags: byte): byte { flags % 2 }
  predicate IsDel(flags: byte) { flags % 2 == 1 }
  predicate IsPinned(flags: byte) { flags / 2 % 2 == 1 }
  predicate IsNew(flags: byte) { flags / 64 % 2 == 1 }
  function ClearNew(flags: byte): byte { if IsNew(flags) then flags - 64 else flags }

  /** The flags are independent bits of weight 1, 2, 64 and 128; sending keeps the first, storing all but NEW. */
  lemma FlagBits(rest: nat, del: bool, pinned: bool, new': bool, erase: bool)
    requires rest < 16
    ensures var f := (if del then 1 else 0) + (if pinned then 2 else 0) + 4 * rest + (if new' then 64 else 0)
                     + (if erase then 128 else 0);
            && IsDel(f) == del && IsPinned(f) == pinned && IsNew(f) == new'
            && MaskDel(f) == (if del then 1 else 0) && ClearNew(f) == if new' then f - 64 else f
  {
  }

  /**
   `dap_sign_get_size`: the size announced by a signature's own header (type, hash type,
   padding, signature size, public key size), 0 for the null type. A shorter string never
   holds a header; every size the callers compare with is then refused in the same way.
   */
  function SignSize(s: bytes): nat {
    if |s| < SIGN_HEADER_SIZE || UnLE(s[0..4]) == 0 then 0
    else SIGN_HEADER_SIZE + UnLE(s[6..10]) + UnLE(s[10..14])
  }

  predicate WellSized(sign: bytes) { sign == [] || SignSize(sign) == |sign| }

  /** A signature is sized by its header: the type, then both lengths, then as many bytes as they announce. */
  lemma WellSizedMeans(kind: nat, hashType: byte, padding: byte, signLen: nat, keyLen: nat, body: bytes)
    requires kind < TWO_TO_32 && signLen < TWO_TO_32 && keyLen < TWO_TO_32
    ensures WellSized(LE(4, kind) + [hashType, padding] + LE(4, signLen) + LE(4, keyLen) + body)
            <==> kind != 0 && |body| == signLen + keyLen
  {
    hide LE, UnLE;
    SignFields(LE(4, kind), [hashType, padding], LE(4, signLen), LE(4, keyLen), body);
    Pow256Widths();
    LERoundTrip(4, kind);
    LERoundTrip(4, signLen);
    LERoundTrip(4, keyLen);
  }

  lemma SignFields(kind: bytes, types: bytes, signLen: bytes, keyLen: bytes, body: bytes)
    requires |kind| == 4 && |types| == 2 && |signLen| == 4 && |keyLen| == 4
    ensures var s := kind + types + signLen + keyLen + body;
            s[0..4] == kind && s[6..10] == signLen && s[10..14] == keyLen && |s| == 14 + |body|
  {
  }

  /** `dap_global_db_pkt_get_size`: 32-bit arithmetic, 0 when the sum wraps around. */
  function PacketSize(dataLen: nat): nat
    requires dataLen < TWO_TO_32
  {
    var sum := (HEADER_SIZE + dataLen) % TWO_TO_32;
    if sum > dataLen then sum else 0
  }

  /** The header of a packet, with the widths of its fields. */
  datatype Head = Head(crc: nat, timestamp: nat, groupLen: nat, keyLen: nat, valueLen: nat, dataLen: nat, flags: byte) {
    predicate Fits() {
      && crc < TWO_TO_64 && timestamp < TWO_TO_64 && groupLen < TWO_TO_16 && keyLen < TWO_TO_16
      && valueLen < TWO_TO_32 && dataLen < TWO_TO_32
    }
  }

  /** The 29 bytes of a header: values are cut to the width of their fields. */
  function WriteHead(h: Head): (r: bytes)
    ensures |r| == HEADER_SIZE
  {
    LE(8, h.crc) + LE(8, h.timestamp) + LE(2, h.groupLen) + LE(2, h.keyLen) + LE(4, h.valueLen) + LE(4, h.dataLen)
      + [h.flags]
  }

  function ReadHead(b: bytes): (h: Head)
    requires |b| >= HEADER_SIZE
    ensures h.Fits()
  {
    FieldBounds(b[0..8]); FieldBounds(b[8..16]); FieldBounds(b[16..18]);
    FieldBounds(b[18..20]); FieldBounds(b[20..24]); FieldBounds(b[24..28]);
    Head(UnLE(b[0..8]), UnLE(b[8..16]), UnLE(b[16..18]), UnLE(b[18..20]), UnLE(b[20..24]), UnLE(b[24..28]), b[28])
  }

  /** The layout of the packed header: where each field stands and how wide it is. */
  lemma HeadLayout(h: Head)
    ensures var b := WriteHead(h);
            && b[0..8] == LE(8, h.crc) && b[8..16] == LE(8, h.timestamp) && b[16..18] == LE(2, h.groupLen)
            && b[18..20] == LE(2, h.keyLen) && b[20..24] == LE(4, h.valueLen) && b[24..28] == LE(4, h.dataLen)
            && b[28] == h.flags && |b| == 29
  {
    hide LE;
  }

  lemma ReadWrittenHead(h: Head, rest: bytes)
    requires h.Fits()
    ensures ReadHead(WriteHead(h) + rest) == h
  {
    var b := WriteHead(h) + rest;
    assert b[0..8] == LE(8, h.crc) && b[8..16] == LE(8, h.timestamp);
    assert b[16..18] == LE(2, h.groupLen) && b[18..20] == LE(2, h.keyLen);
    assert b[20..24] == LE(4, h.valueLen) && b[24..28] == LE(4, h.dataLen);
    Pow256Widths();
    LERoundTrip(8, h.crc); LERoundTrip(8, h.timestamp);
    LERoundTrip(2, h.groupLen); LERoundTrip(2, h.keyLen);
    LERoundTrip(4, h.valueLen); LERoundTrip(4, h.dataLen);
  }

  lemma WriteReadHead(b: bytes)
    requires |b| >= HEADER_SIZE
    ensures WriteHead(ReadHead(b)) == b[..HEADER_SIZE]
  {
    LEOfUnLE(b[0..8]); LEOfUnLE(b[8..16]); LEOfUnLE(b[16..18]);
    LEOfUnLE(b[18..20]); LEOfUnLE(b[20..24]); LEOfUnLE(b[24..28]);
  }

  /** A packet made of the given header values and payload fields. */
  function RawPacket(crc: u64, timestamp: u64, flags: byte, g: bytes, k: bytes, v: bytes, s: bytes): (r: bytes)
    ensures |r| == HEADER_SIZE + |g| + |k| + |v| + |s|
  {
    WriteHead(Head(crc, timestamp, |g|, |k|, |v|, |g| + |k| + |v| + |s|, flags)) + (g + k + v + s)
  }

  /** `dap_global_db_pkt_serialize`. */
  function Serialize(o: StoreObj): bytes {
    RawPacket(o.crc, o.timestamp, MaskDel(o.flags), o.group, o.key, o.value, o.sign)
  }

  datatype Fill = Broken | Overrun | Filled(obj: StoreObj, used: nat)

  /**
   `s_fill_one_store_obj` without an address: read one packet from the front of b.
   `Overrun` is the case where the length field wraps the 32-bit size to 0, so that the
   bound check passes although the packet does not fit.
   */
  function FillOne(b: bytes): (r: Fill)
    ensures r.Filled? ==> HEADER_SIZE < r.used <= |b|
  {
    if |b| < HEADER_SIZE then Broken else FillPayload(ReadHead(b), b)
  }

  /** The checks on the length fields of a header, for a packet bounded by `bound` bytes. */
  predicate LengthsOk(h: Head, bound: nat)
    requires h.Fits()
  {
    var fields := (h.groupLen + h.keyLen + h.valueLen) % TWO_TO_32;
    && PacketSize(h.dataLen) <= bound && h.valueLen <= fields <= h.dataLen
    && 1 <= h.groupLen <= GROUP_NAME_SIZE_MAX && 1 <= h.keyLen <= KEY_SIZE_MAX
  }

  function FillPayload(h: Head, b: bytes): (r: Fill)
    requires |b| >= HEADER_SIZE && h.Fits()
    ensures r.Filled? ==> HEADER_SIZE < r.used <= |b|
  {
    if !LengthsOk(h, |b|) then Broken
    else if HEADER_SIZE + h.dataLen > |b| then Overrun
    else FillFields(h, b[HEADER_SIZE..HEADER_SIZE + h.dataLen])
  }

  function FillFields(h: Head, data: bytes): (r: Fill)
    requires h.Fits() && h.groupLen + h.keyLen + h.valueLen <= h.dataLen == |data|
    ensures r.Filled? ==> r.used == HEADER_SIZE + |data|
  {
    var keyEnd := h.groupLen + h.keyLen;
    var sign := data[keyEnd + h.valueLen..];
    if !WellSized(sign) then Broken
    else Filled(StoreObj(UpToNul(data[..h.groupLen]), UpToNul(data[h.groupLen..keyEnd]),
                         data[keyEnd..keyEnd + h.valueLen], MaskDel(h.flags), sign, h.timestamp, h.crc),
                HEADER_SIZE + h.dataLen)
  }

  lemma {:induction false} UnLEBound(b: bytes)
    ensures UnLE(b) < Pow256(|b|)
  {
    if b != [] {
      UnLEBound(b[1..]);
    }
  }

  lemma FieldBounds(b: bytes)
    ensures |b| == 2 ==> UnLE(b) < TWO_TO_16
    ensures |b| == 4 ==> UnLE(b) < TWO_TO_32
    ensures |b| == 8 ==> UnLE(b) < TWO_TO_64
  {
    Pow256Widths();
    UnLEBound(b);
  }

  /** Payload fields that a receiver accepts. */
  predicate Acceptable(g: bytes, k: bytes, v: bytes, s: bytes) {
    && 1 <= |g| <= GROUP_NAME_SIZE_MAX
    && 1 <= |k| <= KEY_SIZE_MAX
    && WellSized(s)
    && |g| + |k| + |v| + |s| < TWO_TO_32
  }

  /** What is read back from a packet with acceptable fields, whatever follows it. */
  lemma FillRawPacket(crc: u64, timestamp: u64, flags: byte, g: bytes, k: bytes, v: bytes, s: bytes, rest: bytes)
    requires Acceptable(g, k, v, s)
    ensures FillOne(RawPacket(crc, timestamp, flags, g, k, v, s) + rest)
         == Filled(StoreObj(UpToNul(g), UpToNul(k), v, MaskDel(flags), s, timestamp, crc),
                   |RawPacket(crc, timestamp, flags, g, k, v, s)|)
  {
    var h := Head(crc, timestamp, |g|, |k|, |v|, |g| + |k| + |v| + |s|, flags);
    var b := RawPacket(crc, timestamp, flags, g, k, v, s) + rest;
    SkipHead(WriteHead(h), g + k + v + s, rest);
    ReadWrittenHead(h, (g + k + v + s) + rest);
    FillAfterHead(h, b, g + k + v + s);
    FillFieldsOf(h, g, k, v, s);
  }

  lemma SkipHead(head: bytes, data: bytes, rest: bytes)
    requires |head| == HEADER_SIZE
    ensures head + data + rest == head + (data + rest)
    ensures (head + data + rest)[HEADER_SIZE..HEADER_SIZE + |data|] == data
  {
  }

  lemma FillAfterHead(h: Head, b: bytes, data: bytes)
    requires h.Fits() && h.dataLen == |data| && |b| >= HEADER_SIZE + |data|
    requires 1 <= h.groupLen <= GROUP_NAME_SIZE_MAX && 1 <= h.keyLen <= KEY_SIZE_MAX
    requires h.groupLen + h.keyLen + h.valueLen <= |data|
    requires ReadHead(b) == h && b[HEADER_SIZE..HEADER_SIZE + |data|] == data
    ensures FillOne(b) == FillFields(h, data)
  {
    assert LengthsOk(h, |b|);
  }

  lemma FillFieldsOf(h: Head, g: bytes, k: bytes, v: bytes, s: bytes)
    requires WellSized(s) && h.Fits()
    requires h.groupLen == |g| && h.keyLen == |k| && h.valueLen == |v| && h.dataLen == |g| + |k| + |v| + |s|
    ensures FillFields(h, g + k + v + s)
         == Filled(StoreObj(UpToNul(g), UpToNul(k), v, MaskDel(h.flags), s, h.timestamp, h.crc),
                   HEADER_SIZE + h.dataLen)
  {
    hide UpToNul, WellSized, FillFields;
    PayloadSlices(g, k, v, s);
    FillSlices(h, g + k + v + s, g, k, v, s);
  }

  lemma FillSlices(h: Head, data: bytes, g: bytes, k: bytes, v: bytes, s: bytes)
    requires WellSized(s) && h.Fits() && h.groupLen + h.keyLen + h.valueLen <= h.dataLen == |data|
    requires data[..h.groupLen] == g && data[h.groupLen..h.groupLen + h.keyLen] == k
    requires data[h.groupLen + h.keyLen..h.groupLen + h.keyLen + h.valueLen] == v
    requires data[h.groupLen + h.keyLen + h.valueLen..] == s
    ensures FillFields(h, data)
         == Filled(StoreObj(UpToNul(g), UpToNul(k), v, MaskDel(h.flags), s, h.timestamp, h.crc),
                   HEADER_SIZE + h.dataLen)
  {
    hide UpToNul, WellSized;
  }

  lemma PayloadSlices(g: bytes, k: bytes, v: bytes, s: bytes)
    ensures var data := g + k + v + s;
            && data[..|g|] == g && data[|g|..|g| + |k|] == k
            && data[|g| + |k|..|g| + |k| + |v|] == v && data[|g| + |k| + |v|..] == s
  {
  }

  /** A record that the protocol can carry in a packet of its own. */
  predicate Sendable(o: StoreObj) {
    0 !in o.group && 0 !in o.key && Acceptable(o.group, o.key, o.value, o.sign)
  }

  /** A record whose packet length, header included, fits 32 bits. */
  predicate Appendable(o: StoreObj) {
    Sendable(o) && HEADER_SIZE + |o.group| + |o.key| + |o.value| + |o.sign| < TWO_TO_32
  }

  /** Gossip: a serialised record is read back with its flags reduced to the DEL bit. */
  lemma FillSerialized(o: StoreObj, rest: bytes)
    requires Sendable(o)
    ensures FillOne(Serialize(o) + rest) == Filled(o.(flags := MaskDel(o.flags)), |Serialize(o)|)
  {
    hide FillOne, RawPacket;
    FillRawPacket(o.crc, o.timestamp, MaskDel(o.flags), o.group, o.key, o.value, o.sign, rest);
    UpToNulOfWhole(o.group);
    UpToNulOfWhole(o.key);
  }

  lemma {:induction false} LEOfUnLE(b: bytes)
    ensures LE(|b|, UnLE(b)) == b
  {
    if b != [] {
      LEOfUnLE(b[1..]);
      assert UnLE(b) % 256 == b[0] && UnLE(b) / 256 == UnLE(b[1..]);
    }
  }

  /** The bytes consumed are a packet holding exactly the fields that were read. */
  lemma FillConsumesPacket(b: bytes) returns (g: bytes, k: bytes, flags: byte)
    requires FillOne(b).Filled?
    ensures var o := FillOne(b).obj;
            && 1 <= |g| <= 128 && 1 <= |k| <= 512 && WellSized(o.sign)
            && MaskDel(flags) == o.flags && o.group == UpToNul(g) && o.key == UpToNul(k)
            && b[..FillOne(b).used] == RawPacket(o.crc, o.timestamp, flags, g, k, o.value, o.sign)
  {
    hide ReadHead, WriteHead, UpToNul, WellSized, FillFields;
    var h := ReadHead(b);
    var data := b[HEADER_SIZE..HEADER_SIZE + h.dataLen];
    g, k, flags := FieldsAreData(h, data);
    WriteReadHead(b);
    assert b[..HEADER_SIZE + h.dataLen] == b[..HEADER_SIZE] + data;
  }

  /**
   A packet that is not read is broken, unless its header is in order and announces so much that the
   32-bit size wraps to 0: then the reader runs over the end of what it was given.
   */
  lemma OverrunIff(b: bytes)
    ensures FillOne(b).Overrun? <==>
            && |b| >= HEADER_SIZE
            && var h := ReadHead(b);
            && 1 <= h.groupLen <= GROUP_NAME_SIZE_MAX && 1 <= h.keyLen <= KEY_SIZE_MAX
            && h.groupLen + h.keyLen + h.valueLen <= h.dataLen
            && h.dataLen >= TWO_TO_32 - HEADER_SIZE && HEADER_SIZE + h.dataLen > |b|
  {
    hide ReadHead;
  }

  lemma FieldsAreData(h: Head, data: bytes) returns (g: bytes, k: bytes, flags: byte)
    requires h.Fits() && h.groupLen + h.keyLen + h.valueLen <= h.dataLen == |data| && FillFields(h, data).Filled?
    ensures var o := FillFields(h, data).obj;
            && WellSized(o.sign) && MaskDel(flags) == o.flags && o.group == UpToNul(g) && o.key == UpToNul(k)
            && h == Head(o.crc, o.timestamp, |g|, |k|, |o.value|, |data|, flags) && data == g + k + o.value + o.sign
  {
    g, k, flags := data[..h.groupLen], data[h.groupLen..h.groupLen + h.keyLen], h.flags;
  }
}
