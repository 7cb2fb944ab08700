/** JSON trees: comparison, what a tree denotes, and deep copy. */
module JsonTree {
  import opened Bytes

  /** A node and its address; a NULL reference is the JSON null. */
  datatype Json = Json(id: nat, body: Body)
  datatype Body =
    | Bool(b: bool)
    | Double(d: real)
    | Int64(i: int)
    | UInt64(u: nat)
    | Str(s: bytes)
    | Arr(items: seq<Ref>)
    | Obj(members: seq<Member>)
  datatype Ref = NULL | To(node: Json)
  datatype Member = Member(key: bytes, value: Ref)

  /** The position of a key among the members. */
  function Lookup(ms: seq<Member>, key: bytes): (r: Option<nat>)
    ensures r.Some? ==> r.value < |ms| && ms[r.value].key == key
    ensures r.None? ==> forall i :: 0 <= i < |ms| ==> ms[i].key != key
  {
    if ms == [] then None
    else if ms[|ms| - 1].key == key then Some(|ms| - 1)
    else Lookup(ms[..|ms| - 1], key)
  }

  /** The table of an object holds each key once. */
  predicate WellFormed(r: Ref)
    decreases r
  {
    r.NULL? ||
    match r.node.body
    case Int64(i) => -0x8000_0000_0000_0000 <= i < 0x8000_0000_0000_0000
    case UInt64(u) => u < TWO_TO_64
    case Arr(items) => forall i :: 0 <= i < |items| ==> WellFormed(items[i])
    case Obj(ms) =>
      && (forall i :: 0 <= i < |ms| ==> WellFormed(ms[i].value))
      && (forall i, j :: 0 <= i < j < |ms| ==> ms[i].key != ms[j].key)
    case _ => true
  }

  /** `json_object_equal`; the answer for one and the same node is the answer for its contents. */
  predicate Equal(a: Ref, b: Ref)
    decreases a
  {
    if a.NULL? || b.NULL? then a.NULL? && b.NULL?
    else
      match (a.node.body, b.node.body)
      case (Bool(x), Bool(y)) => x == y
      case (Double(x), Double(y)) => x == y
      case (Int64(x), Int64(y)) => x == y
      case (Int64(x), UInt64(y)) => x >= 0 && x == y
      case (UInt64(x), UInt64(y)) => x == y
      case (UInt64(x), Int64(y)) => y >= 0 && x == y
      case (Str(x), Str(y)) => |x| == |y| && x == y
      case (Arr(xs), Arr(ys)) => ItemsEqual(xs, ys)
      case (Obj(xs), Obj(ys)) => MembersEqual(xs, ys)
      case _ => false
  }

  predicate ItemsEqual(xs: seq<Ref>, ys: seq<Ref>)
    decreases xs
  {
    |xs| == |ys| && forall i :: 0 <= i < |xs| ==> Equal(xs[i], ys[i])
  }

  /** Each member of the first is found, with an equal value, in the second, which has no other keys. */
  predicate MembersEqual(xs: seq<Member>, ys: seq<Member>)
    decreases xs
  {
    && (forall i :: 0 <= i < |xs| ==> var sub := Lookup(ys, xs[i].key);
        sub.Some? && Equal(xs[i].value, ys[sub.value].value))
    && (forall i :: 0 <= i < |ys| ==> Lookup(xs, ys[i].key).Some?)
  }

  /** The JSON value itself: integers by their number, members without order. */
  datatype Value =
    | VNull | VBool(b: bool) | VDouble(d: real) | VInt(i: int) | VStr(s: bytes)
    | VArr(vs: seq<Value>) | VObj(vm: map<bytes, Value>)

  function Denote(r: Ref): Value
    decreases r
  {
    if r.NULL? then VNull
    else
      match r.node.body
      case Bool(b) => VBool(b)
      case Double(d) => VDouble(d)
      case Int64(i) => VInt(i)
      case UInt64(u) => VInt(u)
      case Str(s) => VStr(s)
      case Arr(items) => VArr(DenoteItems(items))
      case Obj(ms) => VObj(DenoteMembers(ms))
  }

  function DenoteItems(items: seq<Ref>): (vs: seq<Value>)
    ensures |vs| == |items| && forall i :: 0 <= i < |vs| ==> vs[i] == Denote(items[i])
    decreases items
  {
    if items == [] then [] else DenoteItems(items[..|items| - 1]) + [Denote(items[|items| - 1])]
  }

  function DenoteMembers(ms: seq<Member>): (vm: map<bytes, Value>)
    ensures forall k :: k in vm <==> Lookup(ms, k).Some?
    ensures forall k :: k in vm ==> vm[k] == Denote(ms[Lookup(ms, k).value].value)
    decreases ms
  {
    if ms == [] then map[] else DenoteMembers(ms[..|ms| - 1])[ms[|ms| - 1].key := Denote(ms[|ms| - 1].value)]
  }

  lemma ArraysAgree(xs: seq<Ref>, ys: seq<Ref>)
    requires forall i :: 0 <= i < |xs| && i < |ys| ==> (Equal(xs[i], ys[i]) <==> Denote(xs[i]) == Denote(ys[i]))
    ensures ItemsEqual(xs, ys) <==> DenoteItems(xs) == DenoteItems(ys)
  {
    hide Equal, Denote, DenoteItems;
    var u, v := DenoteItems(xs), DenoteItems(ys);
    assert u == v ==> |u| == |v| && forall i :: 0 <= i < |u| ==> u[i] == v[i];
  }

  lemma ObjectsAgree(xs: seq<Member>, ys: seq<Member>)
    requires forall i, j :: 0 <= i < j < |xs| ==> xs[i].key != xs[j].key
    requires forall i, j :: 0 <= i < |xs| && 0 <= j < |ys| ==>
               (Equal(xs[i].value, ys[j].value) <==> Denote(xs[i].value) == Denote(ys[j].value))
    ensures MembersEqual(xs, ys) <==> DenoteMembers(xs) == DenoteMembers(ys)
  {
    hide Equal, Denote, DenoteMembers, Lookup;
    var u, v := DenoteMembers(xs), DenoteMembers(ys);
    forall i | 0 <= i < |xs|
      ensures Lookup(xs, xs[i].key) == Some(i) && xs[i].key in u && u[xs[i].key] == Denote(xs[i].value) {
    }
    forall i | 0 <= i < |ys| ensures ys[i].key in v {
    }
    if MembersEqual(xs, ys) {
      forall k ensures k in u <==> k in v {
      }
      forall k | k in u ensures u[k] == v[k] {
        var i := Lookup(xs, k).value;
        assert xs[i].key == k;
      }
      assert u == v;
    }
  }

  /** Two trees compare equal exactly when they denote the same JSON value. */
  lemma {:induction false} EqualIff(a: Ref, b: Ref)
    requires WellFormed(a) && WellFormed(b)
    ensures Equal(a, b) <==> Denote(a) == Denote(b)
    decreases a
  {
    hide DenoteItems, DenoteMembers, ItemsEqual, MembersEqual;
    if a.To? && b.To? {
      match (a.node.body, b.node.body)
      case (Arr(xs), Arr(ys)) => ItemsIff(xs, ys);
      case (Obj(xs), Obj(ys)) => MembersIff(xs, ys);
      case _ =>
    }
  }

  lemma {:induction false} ItemsIff(xs: seq<Ref>, ys: seq<Ref>)
    requires forall i :: 0 <= i < |xs| ==> WellFormed(xs[i])
    requires forall i :: 0 <= i < |ys| ==> WellFormed(ys[i])
    ensures ItemsEqual(xs, ys) <==> DenoteItems(xs) == DenoteItems(ys)
    decreases xs
  {
    hide Equal, Denote, WellFormed;
    forall i | 0 <= i < |xs| && i < |ys| ensures Equal(xs[i], ys[i]) <==> Denote(xs[i]) == Denote(ys[i]) {
      EqualIff(xs[i], ys[i]);
    }
    ArraysAgree(xs, ys);
  }

  lemma {:induction false} MembersIff(xs: seq<Member>, ys: seq<Member>)
    requires forall i, j :: 0 <= i < j < |xs| ==> xs[i].key != xs[j].key
    requires forall i :: 0 <= i < |xs| ==> WellFormed(xs[i].value)
    requires forall i :: 0 <= i < |ys| ==> WellFormed(ys[i].value)
    ensures MembersEqual(xs, ys) <==> DenoteMembers(xs) == DenoteMembers(ys)
    decreases xs
  {
    hide Equal, Denote, WellFormed;
    forall i, j | 0 <= i < |xs| && 0 <= j < |ys|
      ensures Equal(xs[i].value, ys[j].value) <==> Denote(xs[i].value) == Denote(ys[j].value) {
      EqualIff(xs[i].value, ys[j].value);
    }
    ObjectsAgree(xs, ys);
  }

  /** So comparison is an equivalence. */
  lemma EqualIsEquivalence(a: Ref, b: Ref, c: Ref)
    requires WellFormed(a) && WellFormed(b) && WellFormed(c)
    ensures Equal(a, a) && (Equal(a, b) ==> Equal(b, a)) && (Equal(a, b) && Equal(b, c) ==> Equal(a, c))
  {
    EqualIff(a, a);
    EqualIff(a, b);
    EqualIff(b, a);
    EqualIff(b, c);
    EqualIff(a, c);
  }

  // Deep copy: every node of the copy is newly allocated, at the next free address.

  function Copy(r: Ref, next: nat): (c: (Ref, nat))
    ensures c.1 >= next
    decreases r
  {
    if r.NULL? then (NULL, next)
    else
      match r.node.body
      case Arr(items) => var (copies, n) := CopyItems(items, next + 1); (To(Json(next, Arr(copies))), n)
      case Obj(ms) => var (copies, n) := CopyMembers(ms, next + 1); (To(Json(next, Obj(copies))), n)
      case body => (To(Json(next, body)), next + 1)
  }

  function CopyItems(items: seq<Ref>, next: nat): (c: (seq<Ref>, nat))
    ensures c.1 >= next && |c.0| == |items|
    decreases items
  {
    if items == [] then ([], next)
    else
      var k := |items| - 1;
      var (copies, n) := CopyItems(items[..k], next);
      var (last, n') := Copy(items[k], n);
      (copies + [last], n')
  }

  function CopyMembers(ms: seq<Member>, next: nat): (c: (seq<Member>, nat))
    ensures c.1 >= next && |c.0| == |ms| && forall i :: 0 <= i < |ms| ==> c.0[i].key == ms[i].key
    decreases ms
  {
    if ms == [] then ([], next)
    else
      var k := |ms| - 1;
      var (copies, n) := CopyMembers(ms[..k], next);
      var (last, n') := Copy(ms[k].value, n);
      (copies + [Member(ms[k].key, last)], n')
  }

  /** The addresses of a tree. */
  function Ids(r: Ref): multiset<nat>
    decreases r
  {
    if r.NULL? then multiset{}
    else
      match r.node.body
      case Arr(items) => multiset{r.node.id} + ItemIds(items)
      case Obj(ms) => multiset{r.node.id} + MemberIds(ms)
      case _ => multiset{r.node.id}
  }

  function ItemIds(items: seq<Ref>): multiset<nat>
    decreases items
  {
    if items == [] then multiset{} else ItemIds(items[..|items| - 1]) + Ids(items[|items| - 1])
  }

  function MemberIds(ms: seq<Member>): multiset<nat>
    decreases ms
  {
    if ms == [] then multiset{} else MemberIds(ms[..|ms| - 1]) + Ids(ms[|ms| - 1].value)
  }

  /** Every address from `lo` up to `hi` occurs, and occurs once. */
  ghost predicate Fills(ids: multiset<nat>, lo: nat, hi: nat) {
    forall x: nat :: ids[x] == if lo <= x < hi then 1 else 0
  }

  lemma FillsNext(ids: multiset<nat>, lo: nat, hi: nat)
    requires Fills(ids, lo + 1, hi) && lo < hi
    ensures Fills(multiset{lo} + ids, lo, hi)
  {
  }

  lemma {:induction false} CopyIsFresh(r: Ref, next: nat)
    ensures Fills(Ids(Copy(r, next).0), next, Copy(r, next).1)
    decreases r
  {
    hide CopyItems, CopyMembers, ItemIds, MemberIds;
    if r.To? {
      assert Fills(multiset{next}, next, next + 1);
      hide Fills;
      match r.node.body
      case Arr(items) =>
        var (copies, n) := CopyItems(items, next + 1);
        CopyItemsFresh(items, next + 1);
        FillsNext(ItemIds(copies), next, n);
      case Obj(ms) =>
        var (copies, n) := CopyMembers(ms, next + 1);
        CopyMembersFresh(ms, next + 1);
        FillsNext(MemberIds(copies), next, n);
      case _ =>
    }
  }

  lemma {:induction false} CopyItemsFresh(items: seq<Ref>, next: nat)
    ensures Fills(ItemIds(CopyItems(items, next).0), next, CopyItems(items, next).1)
    decreases items
  {
    hide Copy, Ids;
    if items != [] {
      var k := |items| - 1;
      CopyItemsFresh(items[..k], next);
      CopyIsFresh(items[k], CopyItems(items[..k], next).1);
      assert CopyItems(items, next).0[..k] == CopyItems(items[..k], next).0;
    }
  }

  lemma {:induction false} CopyMembersFresh(ms: seq<Member>, next: nat)
    ensures Fills(MemberIds(CopyMembers(ms, next).0), next, CopyMembers(ms, next).1)
    decreases ms
  {
    hide Copy, Ids;
    if ms != [] {
      var k := |ms| - 1;
      CopyMembersFresh(ms[..k], next);
      CopyIsFresh(ms[k].value, CopyMembers(ms[..k], next).1);
      assert CopyMembers(ms, next).0[..k] == CopyMembers(ms[..k], next).0;
    }
  }

  lemma {:induction false} CopyDenotes(r: Ref, next: nat)
    requires WellFormed(r)
    ensures WellFormed(Copy(r, next).0) && Denote(Copy(r, next).0) == Denote(r)
    decreases r
  {
    if r.To? {
      match r.node.body
      case Arr(items) => CopyItemsDenote(items, next + 1);
      case Obj(ms) => CopyMembersDenote(ms, next + 1);
      case _ =>
    }
  }

  lemma {:induction false} CopyItemsDenote(items: seq<Ref>, next: nat)
    requires forall i :: 0 <= i < |items| ==> WellFormed(items[i])
    ensures var c := CopyItems(items, next).0;
            && DenoteItems(c) == DenoteItems(items)
            && forall i :: 0 <= i < |c| ==> WellFormed(c[i])
    decreases items
  {
    hide Copy, Denote, WellFormed;
    if items != [] {
      var k := |items| - 1;
      CopyItemsDenote(items[..k], next);
      CopyDenotes(items[k], CopyItems(items[..k], next).1);
      assert CopyItems(items, next).0[..k] == CopyItems(items[..k], next).0;
    }
  }

  lemma {:induction false} CopyMembersDenote(ms: seq<Member>, next: nat)
    requires forall i :: 0 <= i < |ms| ==> WellFormed(ms[i].value)
    ensures var c := CopyMembers(ms, next).0;
            && DenoteMembers(c) == DenoteMembers(ms)
            && forall i :: 0 <= i < |c| ==> WellFormed(c[i].value)
    decreases ms
  {
    hide Copy, Denote, WellFormed;
    if ms != [] {
      var k := |ms| - 1;
      CopyMembersDenote(ms[..k], next);
      CopyDenotes(ms[k].value, CopyMembers(ms[..k], next).1);
      assert CopyMembers(ms, next).0[..k] == CopyMembers(ms[..k], next).0;
    }
  }

  /** A deep copy compares equal to its source and shares no node with anything allocated before. */
  lemma DeepCopy(r: Ref, next: nat)
    requires WellFormed(r)
    ensures var c := Copy(r, next).0;
            && Equal(c, r) && Equal(r, c)
            && forall x: nat :: x in Ids(c) ==> x >= next && Ids(c)[x] == 1
  {
    CopyDenotes(r, next);
    CopyIsFresh(r, next);
    EqualIff(Copy(r, next).0, r);
    EqualIff(r, Copy(r, next).0);
  }
}
