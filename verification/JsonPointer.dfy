/** JSON Pointer (RFC 6901) lookup: token decoding in place, array indices, and the walk. */
module JsonPointer {
  import opened Bytes
  import opened JsonTree

  const TILDE: byte := 126
  const SLASH: byte := 47
  const ZERO: byte := 48
  const ONE: byte := 49

  // Escaping of tokens: sections 3 and 4 of RFC 6901.

  function EscapeToken(k: bytes): bytes {
    if k == [] then []
    else (if k[0] == TILDE then [TILDE, ZERO] else if k[0] == SLASH then [TILDE, ONE] else [k[0]]) + EscapeToken(k[1..])
  }

  /** All occurrences of `~d`, from the left, become `to`. */
  function ReplaceAll(s: bytes, d: byte, to: byte): bytes {
    if s == [] then []
    else if |s| >= 2 && s[0] == TILDE && s[1] == d then [to] + ReplaceAll(s[2..], d, to)
    else [s[0]] + ReplaceAll(s[1..], d, to)
  }

  function DecodeToken(s: bytes): bytes {
    ReplaceAll(ReplaceAll(s, ONE, SLASH), ZERO, TILDE)
  }

  /** Where the two characters do not occur, nothing is replaced; other uses of the tilde stay as they are. */
  lemma {:induction false} NothingToReplace(s: bytes, d: byte, to: byte)
    requires forall i :: 0 <= i < |s| - 1 ==> !(s[i] == TILDE && s[i + 1] == d)
    ensures ReplaceAll(s, d, to) == s
  {
    if s != [] {
      forall i | 0 <= i < |s[1..]| - 1 ensures !(s[1..][i] == TILDE && s[1..][i + 1] == d) {
        assert s[1..][i] == s[i + 1] && s[1..][i + 1] == s[i + 2];
      }
      NothingToReplace(s[1..], d, to);
      assert s == [s[0]] + s[1..];
    }
  }

  /** After the first pass only the tildes are escaped. */
  function EscapeTilde(k: bytes): bytes {
    if k == [] then [] else (if k[0] == TILDE then [TILDE, ZERO] else [k[0]]) + EscapeTilde(k[1..])
  }

  lemma {:induction false} FirstPass(k: bytes)
    ensures ReplaceAll(EscapeToken(k), ONE, SLASH) == EscapeTilde(k)
  {
    if k != [] {
      FirstPass(k[1..]);
      var s, rest := EscapeToken(k), EscapeToken(k[1..]);
      if k[0] == TILDE {
        assert s[1..] == [ZERO] + rest && ([ZERO] + rest)[1..] == rest;
      } else if k[0] == SLASH {
        assert s[2..] == rest;
      } else {
        assert s[1..] == rest;
      }
    }
  }

  lemma {:induction false} SecondPass(k: bytes)
    ensures ReplaceAll(EscapeTilde(k), ZERO, TILDE) == k
  {
    if k != [] {
      SecondPass(k[1..]);
      var s, rest := EscapeTilde(k), EscapeTilde(k[1..]);
      if k[0] == TILDE {
        assert s[2..] == rest;
      } else {
        assert s[1..] == rest;
      }
    }
  }

  /** The two passes, in this order, undo the escaping of every key. */
  lemma TokenRoundTrip(k: bytes)
    ensures DecodeToken(EscapeToken(k)) == k
  {
    FirstPass(k);
    SecondPass(k);
  }

  // Array indices.

  const LONG_MAX: nat := 0x7FFF_FFFF_FFFF_FFFF

  predicate Digits(t: bytes) {
    forall i :: 0 <= i < |t| ==> 48 <= t[i] <= 57
  }

  function DecimalValue(t: bytes): nat
    requires Digits(t)
  {
    if t == [] then 0 else 10 * DecimalValue(t[..|t| - 1]) + (t[|t| - 1] - 48)
  }

  /** `is_valid_index`, up to the range check. */
  function IndexOf(t: bytes): Option<nat> {
    if |t| == 1 then (if Digits(t) then Some(t[0] - 48) else None)
    else if t != [] && t[0] == ZERO then None
    else if !Digits(t) then None
    else Some(if DecimalValue(t) < LONG_MAX then DecimalValue(t) else LONG_MAX)
  }

  /** The canonical text of a number. */
  function Decimal(n: nat): (t: bytes)
    ensures t != [] && Digits(t) && DecimalValue(t) == n && (|t| > 1 ==> t[0] != ZERO)
  {
    if n < 10 then
      var t := [48 + n];
      assert t[..0] == [];
      t
    else
      var h := Decimal(n / 10);
      var t := h + [48 + n % 10];
      assert t[..|t| - 1] == h;
      assert |h| == 1 ==> h[..0] == [] && h[0] == 48 + n / 10;
      t
  }

  lemma DecimalStep(h: nat, d: nat)
    requires h > 0 && d < 10
    ensures Decimal(10 * h + d) == Decimal(h) + [48 + d]
  {
    assert (10 * h + d) / 10 == h && (10 * h + d) % 10 == d;
  }

  lemma {:induction false} DecimalIsCanonical(t: bytes)
    requires t != [] && Digits(t) && (|t| > 1 ==> t[0] != ZERO)
    ensures t == Decimal(DecimalValue(t)) && (t[0] != ZERO ==> DecimalValue(t) > 0)
  {
    var k := |t| - 1;
    if k == 0 {
      assert t[..0] == [] && t == [t[0]];
    } else {
      DecimalIsCanonical(t[..k]);
      DecimalStep(DecimalValue(t[..k]), t[k] - 48);
      hide Decimal;
      assert t == t[..k] + [t[k]];
    }
  }

  /**
   A token is taken as index i exactly when it is the canonical decimal of i, or when it is empty
   and i is 0: the empty token, which RFC 6901 does not allow as an index, reads as the first one.
   */
  lemma IndexIff(t: bytes, i: nat)
    requires i < LONG_MAX
    ensures IndexOf(t) == Some(i) <==> t == Decimal(i) || (t == [] && i == 0)
  {
    if t != [] && Digits(t) && (|t| > 1 ==> t[0] != ZERO) {
      DecimalIsCanonical(t);
      assert |t| == 1 ==> t[..0] == [] && DecimalValue(t) == t[0] - 48;
    }
  }

  // The walk.

  datatype Result = Found(at: Ref) | Invalid | NoEntry

  /** `json_pointer_get_single_path`. */
  function GetSingle(r: Ref, token: bytes): Result {
    if r.To? && r.node.body.Arr? then
      var items := r.node.body.items;
      match IndexOf(token)
      case None => Invalid
      case Some(i) => if i >= |items| || items[i].NULL? then NoEntry else Found(items[i])
    else if r.To? && r.node.body.Obj? then
      var ms := r.node.body.members;
      match Lookup(ms, DecodeToken(token))
      case None => NoEntry
      case Some(i) => Found(ms[i].value)
    else NoEntry
  }

  /** The length of the text before the next slash. */
  function TokenLength(s: bytes): (n: nat)
    ensures n <= |s| && (n < |s| ==> s[n] == SLASH)
  {
    if s == [] || s[0] == SLASH then 0 else 1 + TokenLength(s[1..])
  }

  /** `json_pointer_get_recursive`. */
  function Get(r: Ref, path: bytes): Result {
    if path == [] || path[0] != SLASH then Invalid
    else
      var n := TokenLength(path[1..]);
      var single := GetSingle(r, path[1..n + 1]);
      if !single.Found? || n + 1 == |path| then single else Get(single.at, path[n + 1..])
  }

  /** `json_pointer_get`. */
  function PointerGet(r: Ref, path: bytes): Result {
    if r.NULL? then Invalid else if path == [] then Found(r) else Get(r, path)
  }

  datatype Token = Key(key: bytes) | Index(i: nat)

  function Text(t: Token): bytes {
    match t
    case Key(k) => EscapeToken(k)
    case Index(i) => Decimal(i)
  }

  function PathOf(ts: seq<Token>): bytes {
    if ts == [] then [] else [SLASH] + Text(ts[0]) + PathOf(ts[1..])
  }

  /** Keys lead out of objects, indices out of arrays. */
  function Child(r: Ref, t: Token): Option<Ref> {
    if r.NULL? then None
    else
      match (t, r.node.body)
      case (Key(k), Obj(ms)) => var i := Lookup(ms, k); if i.Some? then Some(ms[i.value].value) else None
      case (Index(i), Arr(items)) => if i < |items| && items[i].To? then Some(items[i]) else None
      case _ => None
  }

  /** Following the list itself. */
  function Walk(r: Ref, ts: seq<Token>): Option<Ref> {
    if ts == [] then Some(r) else if Child(r, ts[0]).None? then None else Walk(Child(r, ts[0]).value, ts[1..])
  }

  lemma {:induction false} NoSlash(k: bytes)
    ensures SLASH !in EscapeToken(k)
  {
    if k != [] {
      NoSlash(k[1..]);
    }
  }

  lemma TextHasNoSlash(t: Token)
    ensures SLASH !in Text(t)
  {
    if t.Key? {
      NoSlash(t.key);
    }
  }

  lemma {:induction false} TokenEnds(t: bytes, rest: bytes)
    requires SLASH !in t && (rest == [] || rest[0] == SLASH)
    ensures TokenLength(t + rest) == |t|
  {
    if t == [] {
      assert t + rest == rest;
    } else {
      TokenEnds(t[1..], rest);
      assert (t + rest)[1..] == t[1..] + rest;
    }
  }

  lemma SingleStep(r: Ref, t: Token)
    requires Child(r, t).Some? && (t.Index? ==> t.i < LONG_MAX)
    ensures GetSingle(r, Text(t)) == Found(Child(r, t).value)
  {
    match t
    case Key(k) => TokenRoundTrip(k);
    case Index(i) => IndexIff(Decimal(i), i);
  }

  lemma GetNothing(r: Ref, text: bytes)
    requires text == [] || text[0] != SLASH
    ensures Get(r, text) == Invalid
  {
  }

  /** Pointers that are no pointers: of nothing, or without the leading slash. */
  lemma NoPointer(r: Ref, path: bytes)
    requires r.NULL? || (path != [] && path[0] != SLASH)
    ensures PointerGet(r, path) == Invalid
  {
  }

  lemma GetStep(r: Ref, text: bytes, n: nat)
    requires text != [] && text[0] == SLASH && n == TokenLength(text[1..])
    ensures var single := GetSingle(r, text[1..n + 1]);
            Get(r, text) == if !single.Found? || n + 1 == |text| then single else Get(single.at, text[n + 1..])
  {
  }

  lemma PathUnfolds(ts: seq<Token>)
    ensures PathOf(ts) == if ts == [] then [] else [SLASH] + Text(ts[0]) + PathOf(ts[1..])
    ensures PathOf(ts) == [] || PathOf(ts)[0] == SLASH
  {
  }

  lemma Cuts(t: bytes, rest: bytes)
    ensures var path, n := [SLASH] + t + rest, |t|;
            path[1..] == t + rest && path[1..n + 1] == t && path[n + 1..] == rest
  {
  }

  /** The path of a non-empty list: its first token, and the path of the rest. */
  lemma PathStep(ts: seq<Token>)
    requires ts != []
    ensures var path, n := PathOf(ts), |Text(ts[0])|;
            && |path| == n + 1 + |PathOf(ts[1..])| && path[0] == SLASH && TokenLength(path[1..]) == n
            && path[1..n + 1] == Text(ts[0]) && path[n + 1..] == PathOf(ts[1..])
  {
    hide TokenLength, Text, PathOf;
    PathUnfolds(ts);
    PathUnfolds(ts[1..]);
    TextHasNoSlash(ts[0]);
    TokenEnds(Text(ts[0]), PathOf(ts[1..]));
    Cuts(Text(ts[0]), PathOf(ts[1..]));
  }

  /** A pointer made of escaped keys and decimal indices leads where the list itself leads. */
  lemma {:induction false} PointerFollowsList(r: Ref, ts: seq<Token>)
    requires r.To? && Walk(r, ts).Some? && forall t :: t in ts && t.Index? ==> t.i < LONG_MAX
    ensures PointerGet(r, PathOf(ts)) == Found(Walk(r, ts).value)
  {
    hide Text, Get;
    if ts != [] {
      PathStep(ts);
      var next := Child(r, ts[0]).value;
      SingleStep(r, ts[0]);
      hide GetSingle, TokenLength;
      GetStep(r, PathOf(ts), |Text(ts[0])|);
      if |ts| > 1 {
        assert PathOf(ts[1..]) != [] by {
          PathStep(ts[1..]);
        }
        hide PathOf;
        PointerFollowsList(next, ts[1..]);
      }
    }
  }

  // The same for every list of tokens: what a token means depends on what it is applied to.

  /** A key that is a number, or empty, counts as an index on an array; an index counts as a key on an object. */
  ghost function As(r: Ref, t: Token): Token {
    if r.NULL? then t
    else
      match (t, r.node.body)
      case (Key(k), Arr(_)) =>
        if k == [] then Index(0)
            else if exists i: nat :: k == Decimal(i) then (var i: nat :| k == Decimal(i); Index(i)) else t
      case (Index(i), Obj(_)) => Key(Decimal(i))
      case _ => t
  }

  /** Where the list leads, or how it fails: on an array by a token that is no index, else by a missing child. */
  ghost function Follow(r: Ref, ts: seq<Token>): Result {
    if ts == [] then Found(r)
    else
      var t := As(r, ts[0]);
      if Child(r, t).Some? then Follow(Child(r, t).value, ts[1..])
      else if r.To? && r.node.body.Arr? && t.Key? then Invalid else NoEntry
  }

  /** Every array on the way has no more items than a `long` can count. */
  ghost predicate Countable(r: Ref, ts: seq<Token>) {
    ts != [] ==>
      && (r.To? && r.node.body.Arr? ==> |r.node.body.items| <= LONG_MAX)
      && (Child(r, As(r, ts[0])).Some? ==> Countable(Child(r, As(r, ts[0])).value, ts[1..]))
  }

  lemma {:induction false} PlainText(k: bytes)
    requires Digits(k)
    ensures EscapeToken(k) == k && DecodeToken(k) == k
  {
    TokenRoundTrip(k);
    if k != [] {
      PlainText(k[1..]);
    }
  }

  /** The token of a key is a number exactly when the key is. */
  lemma {:induction false} EscapedDigits(k: bytes)
    ensures Digits(EscapeToken(k)) <==> Digits(k)
  {
    hide Digits;
    if k != [] {
      EscapedDigits(k[1..]);
      var first := if k[0] == TILDE then [TILDE, ZERO] else if k[0] == SLASH then [TILDE, ONE] else [k[0]];
      assert k == [k[0]] + k[1..] && EscapeToken(k) == first + EscapeToken(k[1..]);
      DigitsTogether([k[0]], k[1..]);
      DigitsTogether(first, EscapeToken(k[1..]));
      FirstDigit(k[0], first);
    } else {
      assert EscapeToken(k) == k;
    }
  }

  lemma DigitsTogether(a: bytes, b: bytes)
    ensures Digits(a + b) <==> Digits(a) && Digits(b)
  {
    if Digits(a + b) {
      forall i | 0 <= i < |a| ensures 48 <= a[i] <= 57 {
        assert a[i] == (a + b)[i];
      }
      forall i | 0 <= i < |b| ensures 48 <= b[i] <= 57 {
        assert b[i] == (a + b)[|a| + i];
      }
    }
  }

  lemma FirstDigit(c: byte, first: bytes)
    requires first == if c == TILDE then [TILDE, ZERO] else if c == SLASH then [TILDE, ONE] else [c]
    ensures Digits([c]) <==> Digits(first)
  {
    assert first[0] == TILDE || first == [c];
    assert [c][0] == c;
  }

  /** Which tokens select an item of an array, and which one. */
  lemma IndexOfText(k: bytes)
    ensures IndexOf(EscapeToken(k)).None? <==> k != [] && forall i: nat :: k != Decimal(i)
    ensures forall i: nat :: k == Decimal(i) ==> IndexOf(EscapeToken(k)) == Some(if i < LONG_MAX then i else LONG_MAX)
    ensures k == [] ==> IndexOf(EscapeToken(k)) == Some(0)
  {
    EscapedDigits(k);
    if Digits(k) {
      PlainText(k);
      if k != [] && (|k| > 1 ==> k[0] != ZERO) {
        DecimalIsCanonical(k);
        assert |k| == 1 ==> k[..0] == [] && DecimalValue(k) == k[0] - 48;
      }
    }
  }

  /** One token: found, missing or invalid as the reference says. */
  lemma StepAs(r: Ref, t: Token)
    requires r.To? && r.node.body.Arr? ==> |r.node.body.items| <= LONG_MAX
    ensures var t', c := As(r, t), Child(r, As(r, t));
            GetSingle(r, Text(t)) == if c.Some? then Found(c.value)
                                     else if r.To? && r.node.body.Arr? && t'.Key? then Invalid else NoEntry
  {
    hide Decimal, EscapeToken;
    if r.To? && r.node.body.Arr? {
      match t
      case Key(k) =>
        IndexOfText(k);
      case Index(i) =>
        PlainText(Decimal(i));
        IndexOfText(Decimal(i));
    } else if r.To? && r.node.body.Obj? {
      match t
      case Key(k) => TokenRoundTrip(k);
      case Index(i) => PlainText(Decimal(i));
    }
  }

  /** A pointer made of any tokens gives the node that they lead to, and no node where they lead nowhere. */
  lemma {:induction false} PointerFollows(r: Ref, ts: seq<Token>)
    requires r.To? && Countable(r, ts)
    ensures PointerGet(r, PathOf(ts)) == Follow(r, ts)
  {
    hide Text, Get, PathOf, TokenLength;
    PathUnfolds(ts);
    if ts != [] {
      GetFollows(r, ts);
      PathStep(ts);
    }
  }

  lemma {:induction false} GetFollows(r: Ref, ts: seq<Token>)
    requires ts != [] && Countable(r, ts)
    ensures Get(r, PathOf(ts)) == Follow(r, ts)
  {
    hide Text, Get, As, Child;
    PathStep(ts);
    StepAs(r, ts[0]);
    hide GetSingle, TokenLength, PathOf;
    GetStep(r, PathOf(ts), |Text(ts[0])|);
    var c := Child(r, As(r, ts[0]));
    PathUnfolds(ts[1..]);
    if |ts| > 1 {
      PathStep(ts[1..]);
      if c.Some? {
        GetFollows(c.value, ts[1..]);
      }
    }
  }

  // The working copy of the path: tokens are cut off and decoded in place.

  /** A C string of `len` bytes starts at `from`. */
  ghost predicate CString(path: array<byte>, from: nat, len: nat)
    reads path
  {
    from + len < path.Length && path[from + len] == 0 && 0 !in path[from..from + len]
  }

  /** Bytes move left by one: `count` of them from behind `at`. */
  function Moved(s: bytes, at: nat, count: nat): bytes
    requires at + count < |s|
  {
    s[..at] + s[at + 1..at + 1 + count] + s[at + count..]
  }

  /** What one replacement does to the whole buffer. */
  lemma ReplaceStep(pre: bytes, cur: bytes, tail: bytes, p: nat, to: byte)
    requires p + 1 < |cur|
    ensures var was := (pre + cur + [0] + tail)[|pre| + p := to];
            Moved(was, |pre| + p + 1, |cur| - p - 1) == pre + Replaced(cur, p, to) + [0] + ([0] + tail)
  {
    var was := (pre + cur + [0] + tail)[|pre| + p := to];
    assert was == pre + cur[p := to] + [0] + tail;
    assert was[..|pre| + p + 1] == pre + (cur[..p] + [to]);
    assert was[|pre| + p + 2..|pre| + |cur| + 1] == cur[p + 2..] + [0];
    assert was[|pre| + |cur|..] == [0] + tail;
  }

  /** One turn of the scan on the text itself. */
  lemma ScanStep(cur: bytes, p: nat, d: byte, to: byte)
    requires p + 1 < |cur|
    ensures var cur' := Replaced(cur, p, to);
            && |cur'| == |cur| - 1
            && if cur[p] == TILDE && cur[p + 1] == d
               then cur[..p] + ReplaceAll(cur[p..], d, to) == cur'[..p + 1] + ReplaceAll(cur'[p + 1..], d, to)
               else cur[..p] + ReplaceAll(cur[p..], d, to) == cur[..p + 1] + ReplaceAll(cur[p + 1..], d, to)
  {
    var cur' := Replaced(cur, p, to);
    assert cur'[p + 1..] == cur[p + 2..] == cur[p..][2..] && cur'[..p + 1] == cur[..p] + [to];
    assert cur[p + 1..] == cur[p..][1..] && cur[..p + 1] == cur[..p] + [cur[p]];
  }

  lemma ScanEnd(cur: bytes, p: nat, d: byte, to: byte)
    requires p <= |cur| <= p + 1
    ensures cur[..p] + ReplaceAll(cur[p..], d, to) == cur
  {
    if p < |cur| {
      assert cur[p..][1..] == [];
      assert cur[p..] == [cur[p]] && cur == cur[..p] + [cur[p]];
    }
  }

  lemma Parts(path: array<byte>, pre: bytes, cur: bytes, tail: bytes, len: nat)
    requires Layout(path[..], pre, cur, tail) && |cur| <= len <= |cur| + |tail|
    ensures CString(path, |pre|, |cur|) && path[|pre|..|pre| + |cur|] == cur && path[..|pre|] == pre
    ensures path[|pre| + len..] == ([0] + tail)[len - |cur|..]
  {
    assert path[|pre|..|pre| + |cur|] == path[..][|pre|..|pre| + |cur|] == cur;
    assert path[..|pre|] == path[..][..|pre|] == pre;
    assert path[|pre| + |cur|] == path[..][|pre| + |cur|] == 0;
    assert path[|pre| + len..] == path[..][|pre| + len..] == ([0] + tail)[len - |cur|..];
  }

  /** The buffer: what comes before, the string with its end, what comes behind. */
  ghost predicate Layout(buf: bytes, pre: bytes, cur: bytes, tail: bytes) {
    buf == pre + cur + [0] + tail && 0 !in cur
  }

  lemma LayoutAt(path: array<byte>, pre: bytes, cur: bytes, tail: bytes, p: nat)
    requires Layout(path[..], pre, cur, tail) && p < |cur|
    ensures |pre| + p < path.Length && path[|pre| + p] == cur[p]
  {
    assert path[|pre| + p] == path[..][|pre| + p];
  }

  function Replaced(cur: bytes, p: nat, to: byte): bytes
    requires p + 1 < |cur|
  {
    cur[..p] + [to] + cur[p + 2..]
  }

  /** One occurrence becomes one character. */
  method ReplaceAt(path: array<byte>, from: nat, n: nat, p: nat, to: byte, ghost pre: bytes, ghost cur: bytes,
                   ghost tail: bytes)
    requires Layout(path[..], pre, cur, tail) && |pre| == from && |cur| == n && p + 1 < n && to != 0
    modifies path
    ensures Layout(path[..], pre, Replaced(cur, p, to), [0] + tail)
  {
    hide Moved;
    ReplaceStep(pre, cur, tail, p, to);
    path[from + p] := to;
    assert path[..] == (pre + cur + [0] + tail)[from + p := to];
    MoveLeft(path, from + p + 1, n - p - 1);
    assert 0 !in Replaced(cur, p, to);
  }

  /** The scan of `string_replace_all_occurrences_with_char`; bytes behind the string stay where they are. */
  method Scan(path: array<byte>, from: nat, len: nat, d: byte, to: byte, ghost pre: bytes, ghost s: bytes,
              ghost tail: bytes)
    returns (n: nat, ghost cur: bytes, ghost behind: bytes)
    requires Layout(path[..], pre, s, tail) && |pre| == from && |s| == len && to != 0
    modifies path
    ensures Layout(path[..], pre, cur, behind) && cur == ReplaceAll(s, d, to)
    ensures |cur| == n <= len <= n + |behind| && ([0] + behind)[len - n..] == [0] + tail
  {
    hide ReplaceAll, Layout;
    n, cur, behind := len, s, tail;
    var p := 0;
    assert s[..0] + ReplaceAll(s[0..], d, to) == ReplaceAll(s, d, to);
    while p + 1 < n
      invariant 0 <= p <= n <= len && |cur| == n && Layout(path[..], pre, cur, behind)
      invariant len - n <= |behind| && ([0] + behind)[len - n..] == [0] + tail
      invariant cur[..p] + ReplaceAll(cur[p..], d, to) == ReplaceAll(s, d, to)
      decreases n - p
    {
      ScanStep(cur, p, d, to);
      LayoutAt(path, pre, cur, behind, p);
      LayoutAt(path, pre, cur, behind, p + 1);
      if path[from + p] == TILDE && path[from + p + 1] == d {
        ReplaceAt(path, from, n, p, to, pre, cur, behind);
        n := n - 1;
        assert ([0] + ([0] + behind))[len - n..] == ([0] + behind)[len - n - 1..];
        cur, behind := Replaced(cur, p, to), [0] + behind;
      }
      p := p + 1;
    }
    ScanEnd(cur, p, d, to);
  }

  /** `string_replace_all_occurrences_with_char` for a two-character occurrence. */
  method ReplaceOccurrences(path: array<byte>, from: nat, len: nat, d: byte, to: byte) returns (n: nat)
    requires CString(path, from, len) && to != 0
    modifies path
    ensures n <= len && CString(path, from, n) && path[from..from + n] == ReplaceAll(old(path[from..from + len]), d, to)
    ensures path[..from] == old(path[..from]) && path[from + len..] == old(path[from + len..])
  {
    ghost var pre: bytes, s: bytes, tail: bytes := path[..from], path[from..from + len], path[from + len + 1..];
    assert path[..] == pre + s + [0] + tail && path[from + len..] == [0] + tail;
    ghost var cur, behind;
    n, cur, behind := Scan(path, from, len, d, to, pre, s, tail);
    hide CString, ReplaceAll;
    Parts(path, pre, cur, behind, len);
  }

  lemma MovedStep(s: bytes, at: nat, i: nat)
    requires at + i + 1 < |s|
    ensures |Moved(s, at, i)| == |s| && Moved(s, at, i)[at + i + 1] == s[at + i + 1]
    ensures Moved(s, at, i)[at + i := s[at + i + 1]] == Moved(s, at, i + 1)
  {
  }

  /** memmove by one to the left: `count` bytes from behind `at`. */
  method MoveLeft(path: array<byte>, at: nat, count: nat)
    requires at + count < path.Length
    modifies path
    ensures path[..] == Moved(old(path[..]), at, count)
  {
    ghost var was: bytes := path[..];
    assert was == Moved(was, at, 0);
    hide Moved;
    var i := 0;
    while i < count
      invariant 0 <= i <= count && path[..] == Moved(was, at, i)
    {
      MovedStep(was, at, i);
      path[at + i] := path[at + i + 1];
      i := i + 1;
    }
  }

  /** `json_pointer_get_single_path` on the token of `len` bytes at `from`. */
  method GetSinglePath(r: Ref, path: array<byte>, from: nat, len: nat) returns (res: Result)
    requires CString(path, from, len)
    modifies path
    ensures res == GetSingle(r, old(path[from..from + len]))
    ensures path[from + len..] == old(path[from + len..])
  {
    hide ReplaceAll, IndexOf;
    ghost var token: bytes := path[from..from + len];
    hide CString;
    if r.To? && r.node.body.Arr? {
      var items := r.node.body.items;
      var i := IndexOf(path[from..from + len]);
      if i.None? {
        return Invalid;
      }
      return if i.value >= |items| || items[i.value].NULL? then NoEntry else Found(items[i.value]);
    }
    var n := ReplaceOccurrences(path, from, len, ONE, SLASH);
    ghost var behind := path[from + len..];
    var m := ReplaceOccurrences(path, from, n, ZERO, TILDE);
    assert path[from + len..] == path[from + n..][len - n..];
    if r.To? && r.node.body.Obj? {
      var ms := r.node.body.members;
      var i := Lookup(ms, path[from..from + m]);
      return if i.Some? then Found(ms[i.value].value) else NoEntry;
    }
    return NoEntry;
  }

  /** `strchr` for a slash within the string. */
  method FindSlash(path: array<byte>, from: nat, len: nat) returns (n: nat)
    requires from + len <= path.Length
    ensures n == TokenLength(path[from..from + len])
  {
    n := 0;
    ghost var s: bytes := path[from..from + len];
    while n < len && path[from + n] != SLASH
      invariant 0 <= n <= len && n + TokenLength(s[n..]) == TokenLength(s)
    {
      assert s[n] == path[from + n] && s[n..][1..] == s[n + 1..];
      n := n + 1;
    }
    assert n < len ==> s[n] == path[from + n];
  }

  /** What is behind the token is the same string as before. */
  lemma Kept(path: array<byte>, from: nat, len: nat, behind: bytes)
    requires from <= path.Length && path[from..] == behind && len < |behind| && behind[len] == 0 && 0 !in behind[..len]
    ensures CString(path, from, len) && path[from..from + len] == behind[..len]
  {
    assert path[from..from + len] == path[from..][..len];
    assert path[from + len] == path[from..][len];
  }

  /** The token of n bytes is looked up; the slash behind it is cut out and put back. */
  method CutToken(r: Ref, path: array<byte>, from: nat, n: nat, len: nat, ghost token: bytes, ghost behind: bytes)
    returns (single: Result)
    requires n <= len && CString(path, from, len) && token == path[from..from + n] && behind == path[from + n..]
    requires n < len ==> path[from + n] == SLASH
    modifies path
    ensures single == GetSingle(r, token) && path[from + n..] == behind
  {
    hide GetSingle;
    if n < len {
      path[from + n] := 0;
    }
    assert path[from..from + n] == token && path[from + n + 1..] == behind[1..];
    single := GetSinglePath(r, path, from, n);
    hide CString;
    assert path[from + n + 1..] == path[from + n..][1..];
    if n < len {
      path[from + n] := SLASH;
      assert path[from + n + 1..] == behind[1..];
    }
    assert path[from + n..] == [path[from + n]] + path[from + n + 1..];
  }

  /** Parts of a string that starts a longer one. */
  lemma Slices(s: bytes, len: nat, n: nat)
    requires n < len < |s|
    ensures var text, behind := s[..len], s[n + 1..];
            s[1..n + 1] == text[1..n + 1] && behind[..len - n - 1] == text[n + 1..] && behind[len - n - 1] == s[len]
  {
  }

  /** The first token of a path, where it ends, and what is behind it. */
  method SplitPath(path: array<byte>, from: nat, len: nat, ghost text: bytes)
    returns (n: nat, ghost token: bytes, ghost behind: bytes)
    requires CString(path, from, len) && len > 0 && text == path[from..from + len]
    ensures from + len < path.Length && n == TokenLength(text[1..]) <= len - 1 && token == text[1..n + 1]
         && CString(path, from + 1, len - 1)
    ensures token == path[from + 1..from + 1 + n] && behind == path[from + 1 + n..]
         && (n < len - 1 ==> path[from + 1 + n] == SLASH)
    ensures len - n - 1 < |behind| && behind[..len - n - 1] == text[n + 1..] && behind[len - n - 1] == 0
         && 0 !in behind[..len - n - 1]
  {
    hide TokenLength;
    assert path[from + 1..from + len] == text[1..];
    n := FindSlash(path, from + 1, len - 1);
    assert n < len - 1 ==> path[from + 1 + n] == text[1..][n];
    token, behind := path[from + 1..from + 1 + n], path[from + 1 + n..];
    Slices(path[from..], len, n);
    assert path[from..from + len] == path[from..][..len];
    assert path[from + 1..from + 1 + n] == path[from..][1..n + 1];
    assert path[from + 1 + n..] == path[from..][n + 1..];
    assert path[from..][..len] == text && path[from..][n + 1..] == behind && path[from..][1..n + 1] == token;
  }

  /** The C string of `len` bytes at `from` is `text`. */
  ghost predicate Holds(path: array<byte>, from: nat, len: nat, text: bytes)
    reads path
  {
    CString(path, from, len) && path[from..from + len] == text
  }

  lemma HeldFirst(path: array<byte>, from: nat, len: nat, text: bytes)
    requires Holds(path, from, len, text)
    ensures from < path.Length && |text| == len && path[from] == if text == [] then 0 else text[0]
  {
  }

  /** One level of the recursion: the first token is looked up and the rest of the path is intact. */
  method GetLevel(r: Ref, path: array<byte>, from: nat, len: nat, ghost text: bytes) returns (single: Result, n: nat)
    requires Holds(path, from, len, text) && len > 0
    modifies path
    ensures n == TokenLength(text[1..]) && single == GetSingle(r, text[1..n + 1])
         && Holds(path, from + 1 + n, len - n - 1, text[n + 1..])
  {
    hide GetSingle, TokenLength, CString;
    ghost var token, behind;
    n, token, behind := SplitPath(path, from, len, text);
    single := CutToken(r, path, from + 1, n, len - 1, token, behind);
    Kept(path, from + 1 + n, len - n - 1, behind);
  }

  /** `json_pointer_get_recursive` on the working copy of the path. */
  method GetRecursive(r: Ref, path: array<byte>, from: nat, len: nat, ghost text: bytes) returns (res: Result)
    requires Holds(path, from, len, text)
    modifies path
    ensures res == Get(r, text)
    decreases len
  {
    hide Holds, GetSingle, TokenLength, Get;
    HeldFirst(path, from, len, text);
    if path[from] != SLASH {
      GetNothing(r, text);
      return Invalid;
    }
    var n;
    res, n := GetLevel(r, path, from, len, text);
    GetStep(r, text, n);
    if res.Found? && n + 1 < len {
      res := GetRecursive(res.at, path, from + 1 + n, len - n - 1, text[n + 1..]);
    }
  }

  /** `json_pointer_get`: the path is copied, so that the caller's is not changed. */
  method JsonPointerGet(r: Ref, path: bytes) returns (res: Result)
    requires 0 !in path
    ensures res == PointerGet(r, path)
  {
    hide Get;
    if r.NULL? {
      return Invalid;
    }
    if path == [] {
      return Found(r);
    }
    var copy := new byte[|path| + 1](i requires 0 <= i <= |path| => if i < |path| then path[i] else 0);
    assert copy[0..|path|] == path;
    res := GetRecursive(r, copy, 0, |path|, path);
  }
}
