/**
 The reader of the synchronisation channel: a job that sends the hashes of a group page by
 page, each turn re-queued until the end of the table is reached.
 */
module SyncReader {
  import opened Bytes
  import opened DriverHash
  import opened MdbxTable
  import opened MdbxDriver
  import opened GlobalDb

  /** One turn of the job: whether it runs again, from where, and what it sent. */
  datatype Turn = Turn(again: bool, lastHash: Hash, sent: seq<Hash>, groupRequest: bool)

  /** The number of leading hashes past their time to live; the blank end mark is not one of them. */
  function TrimCount(ttl: u64, now: u64, page: seq<Hash>): (n: nat)
    ensures n <= |page|
  {
    if page == [] || !Expired(ttl, page[0].ts, now) || page[0] == BLANK then 0
    else 1 + TrimCount(ttl, now, page[1..])
  }

  /** What one turn does with the page it read. */
  function TurnOf(page: seq<Hash>, lastHash: Hash, answering: bool, ttl: u64, now: u64): Turn {
    if page == [] then Turn(false, lastHash, [], !answering)
    else
      var rest := page[TrimCount(ttl, now, page)..];
      if rest == [] then Turn(true, page[|page| - 1], [], false)
      else
        var last := rest[|rest| - 1];
        Turn(last != BLANK, last, if last != BLANK then rest else rest[..|rest| - 1], false)
  }

  method Trim(hashes: seq<Hash>, ttl: u64, now: u64) returns (i: nat)
    ensures i == TrimCount(ttl, now, hashes)
  {
    hide Expired;
    i := 0;
    while i < |hashes| && Expired(ttl, hashes[i].ts, now) && hashes[i] != BLANK
      invariant 0 <= i <= |hashes|
      invariant TrimCount(ttl, now, hashes) == i + TrimCount(ttl, now, hashes[i..])
    {
      assert hashes[i..][1..] == hashes[i + 1..];
      i := i + 1;
    }
  }

  lemma NothingToTrim(now: u64, hashes: seq<Hash>)
    ensures TrimCount(0, now, hashes) == 0
  {
  }

  /**
   `s_proc_thread_reader` for an admitted peer. `answering` says that the job was started by
   a GROUP_REQUEST; a job started by START ends an exhausted table with a GROUP_REQUEST of
   its own.
   */
  method ReadTurn(driver: Driver, group: bytes, lastHash: Hash, answering: bool, ttl: u64, now: u64)
    returns (turn: Turn)
    requires driver.Valid()
    ensures turn == TurnOf(HashPage(TableOf(driver.tables, group), lastHash, KEYS_PAGE), lastHash, answering, ttl, now)
  {
    assert HashPage([], lastHash, KEYS_PAGE) == [];
    assert ttl == 0 ==> forall ts: u64 :: !Expired(ttl, ts, now);
    hide HashPage, Expired, TrimCount, ValidTables;
    var hashes := driver.ReadHashes(group, lastHash);
    if hashes == [] {
      return Turn(false, lastHash, [], !answering);
    }
    ghost var page := hashes;
    if ttl != 0 {
      var i := Trim(hashes, ttl, now);
      if i == |hashes| {
        return Turn(true, hashes[|hashes| - 1], [], false);
      }
      hashes := hashes[i..];
    } else {
      NothingToTrim(now, hashes);
    }
    var last := hashes[|hashes| - 1];
    var again := last != BLANK;
    if !again {
      hashes := hashes[..|hashes| - 1];
    }
    return Turn(again, last, hashes, false);
  }

  // All turns of one job, on a table and a clock that stand still.

  lemma {:induction false} AboveIsSuffix(t: Table, h: Hash)
    requires Ascending(t)
    ensures |Above(t, h)| <= |t| && Above(t, h) == t[|t| - |Above(t, h)|..] && Ascending(Above(t, h))
    ensures forall r :: r in Above(t, h) <==> r in t && h.Less(r.hash)
  {
    if t != [] && !h.Less(t[0].hash) {
      AboveIsSuffix(t[1..], h);
      assert forall x :: x in t <==> x == t[0] || x in t[1..];
    } else if t != [] {
      assert forall r :: r in t ==> h.Less(r.hash);
    }
  }

  /** The table above one of its rows is the rest of the table. */
  lemma {:induction false} AboveRow(t: Table, h: Hash, k: nat)
    requires Ascending(t) && k < |Above(t, h)|
    ensures Above(t, Above(t, h)[k].hash) == Above(t, h)[k + 1..]
    decreases |t|
  {
    AboveIsSuffix(t, h);
    if !h.Less(t[0].hash) {
      AboveRow(t[1..], h, k);
    } else {
      AboveSelf(t, k);
    }
  }

  lemma {:induction false} AboveSelf(t: Table, k: nat)
    requires Ascending(t) && k < |t|
    ensures Above(t, t[k].hash) == t[k + 1..]
    decreases k
  {
    if k == 0 {
      assert t[1..] == [] || t[0].hash.Less(t[1..][0].hash);
    } else {
      AboveSelf(t[1..], k - 1);
    }
  }

  /** The rows one turn reads, and the turn in terms of rows. */
  function PageRows(t: Table, from: Hash): Table {
    var rows := Above(t, from);
    if |rows| < KEYS_PAGE then rows else rows[..KEYS_PAGE]
  }

  /** Unexpired hashes, in the order of the table. */
  function Unexpired(ttl: u64, now: u64, rows: Table): seq<Hash> {
    if rows == [] then []
    else if Expired(ttl, rows[0].hash.ts, now) then Unexpired(ttl, now, rows[1..])
    else [rows[0].hash] + Unexpired(ttl, now, rows[1..])
  }

  lemma {:induction false} UnexpiredSplit(ttl: u64, now: u64, a: Table, b: Table)
    ensures Unexpired(ttl, now, a + b) == Unexpired(ttl, now, a) + Unexpired(ttl, now, b)
  {
    hide Unexpired, Expired;
    if a == [] {
      UnexpiredStep(ttl, now, a);
      assert a + b == b;
    } else {
      UnexpiredSplit(ttl, now, a[1..], b);
      UnexpiredStep(ttl, now, a);
      UnexpiredStep(ttl, now, a + b);
      assert (a + b)[1..] == a[1..] + b && (a + b)[0] == a[0];
      var h, u, v := if Expired(ttl, a[0].hash.ts, now) then []
          else [a[0].hash], Unexpired(ttl, now, a[1..]), Unexpired(ttl, now, b);
      assert (h + u) + v == h + (u + v);
    }
  }

  lemma UnexpiredStep(ttl: u64, now: u64, rows: Table)
    ensures Unexpired(ttl, now, rows)
         == if rows == [] then []
            else (if Expired(ttl, rows[0].hash.ts, now) then [] else [rows[0].hash]) + Unexpired(ttl, now, rows[1..])
  {
    hide Expired;
  }

  /** The clock is far enough from its end for expiry to be monotone in the timestamp. */
  ghost predicate InRange(ttl: u64, t: Table) {
    forall r :: r in t ==> r.hash.ts + ttl < TWO_TO_64 && r.hash != BLANK
  }

  lemma TrimStep(ttl: u64, now: u64, h: Hash, tail: seq<Hash>)
    requires h != BLANK
    ensures TrimCount(ttl, now, [h] + tail) == if Expired(ttl, h.ts, now) then 1 + TrimCount(ttl, now, tail) else 0
    ensures ([h] + tail)[1..] == tail && forall n :: 0 <= n <= |tail| ==> ([h] + tail)[n + 1..] == tail[n..]
  {
    hide Expired;
    assert ([h] + tail)[1..] == tail;
  }

  lemma PageStep(rows: Table, mark: seq<Hash>)
    requires rows != []
    ensures Hashes(rows) + mark == [rows[0].hash] + (Hashes(rows[1..]) + mark)
  {
  }

  /** Trimming the expired prefix of a page leaves exactly its unexpired hashes. */
  lemma {:induction false} TrimKeepsUnexpired(ttl: u64, now: u64, rows: Table, mark: seq<Hash>)
    requires Ascending(rows) && InRange(ttl, rows) && (mark == [] || mark == [BLANK])
    ensures var page := Hashes(rows) + mark; var n := TrimCount(ttl, now, page);
            n <= |rows| && page[n..] == Unexpired(ttl, now, rows) + mark
  {
    hide Expired, Hashes;
    if rows == [] {
      assert Hashes(rows) + mark == mark;
    } else {
      var tail := Hashes(rows[1..]) + mark;
      PageStep(rows, mark);
      assert rows[0] in rows;
      TrimStep(ttl, now, rows[0].hash, tail);
      hide TrimCount;
      if Expired(ttl, rows[0].hash.ts, now) {
        TrimKeepsUnexpired(ttl, now, rows[1..], mark);
      } else {
        NothingExpired(ttl, now, rows);
      }
    }
  }

  lemma YoungerIsNotExpired(ttl: u64, now: u64, a: u64, b: u64)
    requires a <= b && b + ttl < TWO_TO_64 && !Expired(ttl, a, now)
    ensures !Expired(ttl, b, now)
  {
  }

  lemma {:induction false} NothingExpired(ttl: u64, now: u64, rows: Table)
    requires Ascending(rows) && InRange(ttl, rows)
    requires rows == [] || !Expired(ttl, rows[0].hash.ts, now)
    ensures Unexpired(ttl, now, rows) == Hashes(rows)
  {
    hide Expired;
    if |rows| > 1 {
      assert rows[0].hash.Less(rows[1].hash) && rows[1] in rows && rows[0] in rows;
      YoungerIsNotExpired(ttl, now, rows[0].hash.ts, rows[1].hash.ts);
      NothingExpired(ttl, now, rows[1..]);
    }
    assert rows == [] || Hashes(rows) == [rows[0].hash] + Hashes(rows[1..]);
  }

  /** A full page: the job goes on behind it. */
  lemma FullTurn(t: Table, from: Hash, answering: bool, ttl: u64, now: u64)
    requires Ascending(t) && InRange(ttl, t) && |Above(t, from)| >= KEYS_PAGE
    ensures var rows, turn := Above(t, from), TurnOf(HashPage(t, from, KEYS_PAGE), from, answering, ttl, now);
            turn.sent == Unexpired(ttl, now, PageRows(t, from)) && turn.again
              && Above(t, turn.lastHash) == rows[KEYS_PAGE..] && !turn.groupRequest
  {
    hide Expired, Above, TrimCount, Unexpired;
    var rows, page := Above(t, from), PageRows(t, from);
    AboveIsSuffix(t, from);
    TrimKeepsUnexpired(ttl, now, page, []);
    assert Hashes(page) + [] == Hashes(page);
    AboveRow(t, from, KEYS_PAGE - 1);
    var n := TrimCount(ttl, now, Hashes(page));
    assert rows[KEYS_PAGE - 1] in t;
    assert n < |page| ==> Hashes(page)[n..][|page| - n - 1] == rows[KEYS_PAGE - 1].hash;
  }

  /** A page with the end mark, or nothing at all: the job ends. */
  lemma LastTurn(t: Table, from: Hash, answering: bool, ttl: u64, now: u64)
    requires Ascending(t) && InRange(ttl, t) && |Above(t, from)| < KEYS_PAGE
    ensures var rows, turn := Above(t, from), TurnOf(HashPage(t, from, KEYS_PAGE), from, answering, ttl, now);
            turn.sent == Unexpired(ttl, now, PageRows(t, from)) && !turn.again
              && (turn.groupRequest <==> rows == [] && !answering)
  {
    hide Expired, Above, TrimCount;
    AboveIsSuffix(t, from);
    if Above(t, from) != [] {
      TrimKeepsUnexpired(ttl, now, Above(t, from), [BLANK]);
    }
  }

  /** One turn sends the unexpired hashes of its page and moves to the rows behind it, or ends. */
  lemma TurnMeans(t: Table, from: Hash, answering: bool, ttl: u64, now: u64)
    requires Ascending(t) && InRange(ttl, t)
    ensures var rows, turn := Above(t, from), TurnOf(HashPage(t, from, KEYS_PAGE), from, answering, ttl, now);
            && turn.sent == Unexpired(ttl, now, PageRows(t, from))
            && (turn.again <==> |rows| >= KEYS_PAGE)
            && (turn.again ==> Above(t, turn.lastHash) == rows[KEYS_PAGE..])
            && (turn.groupRequest <==> rows == [] && !answering)
  {
    hide TurnOf, HashPage, PageRows, Unexpired, Above;
    if |Above(t, from)| >= KEYS_PAGE {
      FullTurn(t, from, answering, ttl, now);
    } else {
      LastTurn(t, from, answering, ttl, now);
    }
  }

  /** What started the job matters for the final GROUP_REQUEST only. */
  lemma TurnKind(page: seq<Hash>, from: Hash, answering: bool, ttl: u64, now: u64)
    ensures TurnOf(page, from, answering, ttl, now)
         == TurnOf(page, from, true, ttl, now).(groupRequest := page == [] && !answering)
  {
    hide TrimCount;
  }

  /** The pages a job sends, as messages. */
  function Pages(t: Table, from: Hash, ttl: u64, now: u64): (r: seq<seq<Hash>>)
    decreases |Above(t, from)|
  {
    var turn := TurnOf(HashPage(t, from, KEYS_PAGE), from, true, ttl, now);
    (if turn.sent == [] then [] else [turn.sent]) +
    if turn.again && |Above(t, turn.lastHash)| < |Above(t, from)| then Pages(t, turn.lastHash, ttl, now) else []
  }

  function Flatten(pages: seq<seq<Hash>>): seq<Hash> {
    if pages == [] then [] else pages[0] + Flatten(pages[1..])
  }

  /** A job run to its end: turns repeat while they ask to be queued again. */
  method RunReader(driver: Driver, group: bytes, start: Hash, answering: bool, ttl: u64, now: u64)
    returns (pages: seq<seq<Hash>>, groupRequest: bool)
    requires driver.Valid() && InRange(ttl, TableOf(driver.tables, group))
    ensures pages == Pages(TableOf(driver.tables, group), start, ttl, now)
    ensures Flatten(pages) == Unexpired(ttl, now, Above(TableOf(driver.tables, group), start))
    ensures groupRequest <==> !answering && |Above(TableOf(driver.tables, group), start)| % 512 == 0
  {
    hide HashPage, TurnOf, Expired, Pages, Above, Unexpired, InRange, TableOf, ValidTables;
    TableAscends(driver.tables, group);
    ghost var t := TableOf(driver.tables, group);
    ghost var rest := Pages(t, start, ttl, now);
    var last, again := start, true;
    pages, groupRequest := [], false;
    while again
      invariant Pages(t, start, ttl, now) == pages + rest
      invariant rest == if again then Pages(t, last, ttl, now) else []
      invariant again ==> |Above(t, start)| % KEYS_PAGE == |Above(t, last)| % KEYS_PAGE
      invariant !again ==> (groupRequest <==> !answering && |Above(t, start)| % KEYS_PAGE == 0)
      decreases again, |Above(t, last)|
    {
      var turn := ReadTurn(driver, group, last, answering, ttl, now);
      ghost var rest' := if turn.again then Pages(t, turn.lastHash, ttl, now) else [];
      RunTurn(t, last, pages, answering, ttl, now);
      if turn.sent != [] {
        pages := pages + [turn.sent];
      }
      rest := rest';
      again, last, groupRequest := turn.again, turn.lastHash, turn.groupRequest;
    }
    PagingComplete(t, start, ttl, now);
  }

  lemma TableAscends(ts: Tables, group: bytes)
    requires ValidTables(ts)
    ensures Ascending(TableOf(ts, group))
    ensures TableOf(ts, group) == if group in ts then ts[group] else []
  {
  }

  /** One turn of the job: what it sends goes behind the pages so far. */
  lemma RunTurn(t: Table, last: Hash, pages: seq<seq<Hash>>, answering: bool, ttl: u64, now: u64)
    requires Ascending(t) && InRange(ttl, t)
    ensures var turn := TurnOf(HashPage(t, last, KEYS_PAGE), last, answering, ttl, now);
            && pages + Pages(t, last, ttl, now)
               == (if turn.sent == [] then pages else pages + [turn.sent])
                  + (if turn.again then Pages(t, turn.lastHash, ttl, now) else [])
            && (turn.again ==> |Above(t, last)| == |Above(t, turn.lastHash)| + KEYS_PAGE)
            && (!turn.again ==> (turn.groupRequest <==> !answering && |Above(t, last)| % KEYS_PAGE == 0))
  {
    hide HashPage, TurnOf, Expired, Pages, Above, Unexpired, InRange;
    var turn := TurnOf(HashPage(t, last, KEYS_PAGE), last, answering, ttl, now);
    TurnMeans(t, last, answering, ttl, now);
    TurnKind(HashPage(t, last, KEYS_PAGE), last, answering, ttl, now);
    PagesStep(t, last, ttl, now);
    var rest := if turn.again then Pages(t, turn.lastHash, ttl, now) else [];
    assert (pages + [turn.sent]) + rest == pages + ([turn.sent] + rest) && [] + rest == rest;
  }

  lemma PagesStep(t: Table, from: Hash, ttl: u64, now: u64)
    requires Ascending(t) && InRange(ttl, t)
    ensures var turn := TurnOf(HashPage(t, from, KEYS_PAGE), from, true, ttl, now);
            Pages(t, from, ttl, now) == (if turn.sent == [] then [] else [turn.sent])
                                        + if turn.again then Pages(t, turn.lastHash, ttl, now) else []
  {
    hide HashPage, TurnOf, Expired;
    TurnMeans(t, from, true, ttl, now);
  }

  /**
   Paging is complete: the pages of a job hold every unexpired hash above its start exactly
   once in ascending order and no expired one, none longer than a page.
   */
  lemma {:induction false} PagingComplete(t: Table, from: Hash, ttl: u64, now: u64)
    requires Ascending(t) && InRange(ttl, t)
    ensures Flatten(Pages(t, from, ttl, now)) == Unexpired(ttl, now, Above(t, from))
    ensures forall p :: p in Pages(t, from, ttl, now) ==> 1 <= |p| <= 512
    decreases |Above(t, from)|
  {
    hide HashPage, TurnOf, Expired, Pages, Unexpired;
    var rows := Above(t, from);
    var turn := TurnOf(HashPage(t, from, KEYS_PAGE), from, true, ttl, now);
    TurnMeans(t, from, true, ttl, now);
    PagesStep(t, from, ttl, now);
    UnexpiredShorter(ttl, now, PageRows(t, from));
    var rest := if turn.again then Pages(t, turn.lastHash, ttl, now) else [];
    assert turn.sent != [] ==> ([turn.sent] + rest)[1..] == rest;
    assert [] + rest == rest;
    if turn.again {
      PagingComplete(t, turn.lastHash, ttl, now);
      assert rows == PageRows(t, from) + rows[KEYS_PAGE..];
      UnexpiredSplit(ttl, now, PageRows(t, from), rows[KEYS_PAGE..]);
    } else {
      assert turn.sent + Flatten([]) == turn.sent;
    }
  }

  lemma {:induction false} UnexpiredShorter(ttl: u64, now: u64, rows: Table)
    ensures |Unexpired(ttl, now, rows)| <= |rows|
  {
    if rows != [] {
      UnexpiredShorter(ttl, now, rows[1..]);
    }
  }

  /** The sent hashes ascend strictly, so none is sent twice, and they are those of unexpired rows above the start. */
  lemma {:induction false} UnexpiredMeans(ttl: u64, now: u64, rows: Table)
    requires Ascending(rows)
    ensures var hs := Unexpired(ttl, now, rows);
            && (forall i, j :: 0 <= i < j < |hs| ==> hs[i].Less(hs[j]))
            && (forall h :: h in hs <==> exists r :: r in rows && r.hash == h && !Expired(ttl, h.ts, now))
  {
    if rows != [] {
      UnexpiredMeans(ttl, now, rows[1..]);
      var hs, tail := Unexpired(ttl, now, rows), Unexpired(ttl, now, rows[1..]);
      assert forall x :: x in rows <==> x == rows[0] || x in rows[1..];
      forall h | h in tail ensures rows[0].hash.Less(h) {
        var r :| r in rows[1..] && r.hash == h;
      }
      forall h ensures h in hs <==> exists r :: r in rows && r.hash == h && !Expired(ttl, h.ts, now) {
        if h in tail {
          var r :| r in rows[1..] && r.hash == h && !Expired(ttl, h.ts, now);
          assert r in rows;
        }
      }
    }
  }
}
