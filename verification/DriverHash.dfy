/**
 The driver hash of a record: its timestamp and checksum, both big-endian, compared with
 `memcmp`. The order on hashes decides every conflict between records and is the order in
 which the storage engine keeps a table.
 */
module DriverHash {
  import opened Bytes

  datatype Hash = Hash(ts: u64, crc: u64) {
    function Encode(): (r: bytes)
      ensures |r| == 16
    {
      BE(8, ts) + BE(8, crc)
    }

    predicate Less(other: Hash) {
      ts < other.ts || (ts == other.ts && crc < other.crc)
    }

    predicate AtMost(other: Hash) {
      this == other || Less(other)
    }
  }

  const BLANK := Hash(0, 0)

  /** `dap_global_db_driver_hash_compare`. */
  function Compare(a: Hash, b: Hash): (r: int)
    ensures -1 <= r <= 1
  {
    var d := Memcmp(a.Encode(), b.Encode());
    if d < 0 then -1 else if d > 0 then 1 else 0
  }

  lemma {:induction false} MemcmpBE(n: nat, x: nat, y: nat, s: bytes, t: bytes)
    requires x < Pow256(n) && y < Pow256(n) && |s| == |t|
    ensures x < y ==> Memcmp(BE(n, x) + s, BE(n, y) + t) < 0
    ensures x > y ==> Memcmp(BE(n, x) + s, BE(n, y) + t) > 0
    ensures x == y ==> Memcmp(BE(n, x) + s, BE(n, y) + t) == Memcmp(s, t)
  {
    if n == 0 {
      assert BE(n, x) + s == s && BE(n, y) + t == t;
    } else {
      var s', t' := [x % 256] + s, [y % 256] + t;
      assert BE(n, x) + s == BE(n - 1, x / 256) + s';
      assert BE(n, y) + t == BE(n - 1, y / 256) + t';
      MemcmpBE(n - 1, x / 256, y / 256, s', t');
      assert s'[1..] == s && t'[1..] == t;
    }
  }

  /** Byte order on encoded hashes is the lexicographic order on (timestamp, checksum). */
  lemma CompareIsLexicographic(a: Hash, b: Hash)
    ensures Compare(a, b) == if a == b then 0 else if a.Less(b) then -1 else 1
  {
    Pow256Widths();
    MemcmpBE(8, a.ts, b.ts, BE(8, a.crc), BE(8, b.crc));
    MemcmpBE(8, a.crc, b.crc, [], []);
    assert BE(8, a.crc) + [] == BE(8, a.crc) && BE(8, b.crc) + [] == BE(8, b.crc);
  }
}
