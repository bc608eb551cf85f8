/** The circular doubly linked lists of list.h on an address-indexed store. */
module LinkedList {
  import opened Sequences

  type Ptr = nat

  /** struct list_head */
  datatype Links = Links(next: Ptr, prev: Ptr)

  type Store = map<Ptr, Links>

  const POISON1: Ptr := 0x00100100
  const POISON2: Ptr := 0x00200200

  /** __list_add as a sequence of four stores; x may be one of p and n. */
  function AddedBetween(m: Store, x: Ptr, p: Ptr, n: Ptr): Store
    requires x in m && p in m && n in m
  {
    var m1 := m[n := m[n].(prev := x)];
    var m2 := m1[x := Links(n, p)];
    m2[p := m2[p].(next := x)]
  }

  function Added(m: Store, x: Ptr, head: Ptr): Store
    requires x in m && head in m && m[head].next in m
  {
    AddedBetween(m, x, head, m[head].next)
  }

  function Deleted(m: Store, x: Ptr): Store
    requires x in m && m[x].next in m && m[x].prev in m
  {
    var (n, p) := (m[x].next, m[x].prev);
    var m1 := m[n := m[n].(prev := p)];
    var m2 := m1[p := m1[p].(next := n)];
    m2[x := Links(POISON1, POISON2)]
  }

  /** Memory that holds list heads, changed in place by the functions of list.h. */
  class ListMemory {
    var links: Store

    constructor (head: Ptr)
      ensures links == map[head := Links(head, head)]
    {
      links := map[head := Links(head, head)];
    }

    method ListAddBetween(x: Ptr, prev: Ptr, next: Ptr)
      requires x in links && prev in links && next in links
      modifies this
      ensures links == AddedBetween(old(links), x, prev, next)
    {
      links := links[next := links[next].(prev := x)];
      links := links[x := links[x].(next := next)];
      links := links[x := links[x].(prev := prev)];
      links := links[prev := links[prev].(next := x)];
    }

    method ListAdd(x: Ptr, head: Ptr)
      requires x in links && head in links && links[head].next in links
      modifies this
      ensures links == Added(old(links), x, head)
    {
      ListAddBetween(x, head, links[head].next);
    }

    method ListAddTail(x: Ptr, head: Ptr)
      requires x in links && head in links && links[head].prev in links
      modifies this
      ensures links == AddedBetween(old(links), x, old(links)[head].prev, head)
    {
      ListAddBetween(x, links[head].prev, head);
    }

    method ListDel(x: Ptr)
      requires x in links && links[x].next in links && links[x].prev in links
      modifies this
      ensures links == Deleted(old(links), x)
    {
      var (next, prev) := (links[x].next, links[x].prev);
      links := links[next := links[next].(prev := prev)];
      links := links[prev := links[prev].(next := next)];
      links := links[x := links[x].(next := POISON1)];
      links := links[x := links[x].(prev := POISON2)];
    }
  }

  // ----- lists as sequences

  /** Neighbours in r point at each other. */
  ghost predicate Chained(m: Store, r: seq<Ptr>) {
    && (forall i :: 0 <= i < |r| ==> r[i] in m)
    && (forall i :: 0 <= i < |r| - 1 ==> m[r[i]].next == r[i + 1])
    && (forall i :: 1 <= i < |r| ==> m[r[i]].prev == r[i - 1])
  }

  /** The list at head has exactly the elements s, in this order in both directions. */
  ghost predicate IsList(m: Store, head: Ptr, s: seq<Ptr>) {
    Distinct([head] + s) && Chained(m, [head] + s + [head])
  }

  lemma Bridge(m: Store, l: seq<Ptr>, r: seq<Ptr>)
    requires Chained(m, l) && Chained(m, r) && l != [] && r != []
    requires m[l[|l| - 1]].next == r[0] && m[r[0]].prev == l[|l| - 1]
    ensures Chained(m, l + r)
  {
  }

  /** A chain is kept by any change to links that it does not use. */
  lemma ChainKept(m: Store, m': Store, r: seq<Ptr>)
    requires Chained(m, r)
    requires forall i :: 0 <= i < |r| ==> r[i] in m'
    requires forall i :: 0 <= i < |r| - 1 ==> m'[r[i]].next == m[r[i]].next
    requires forall i :: 1 <= i < |r| ==> m'[r[i]].prev == m[r[i]].prev
    ensures Chained(m', r)
  {
  }

  /** What holds on the two sides of a gap in a list, p being before and n after it. */
  ghost predicate Gap(m: Store, l: seq<Ptr>, r: seq<Ptr>, p: Ptr, n: Ptr) {
    && l != [] && r != [] && l[|l| - 1] == p && r[0] == n
    && Chained(m, l) && Chained(m, r) && m[p].next == n && m[n].prev == p
    && (forall i :: 0 <= i < |l| - 1 ==> l[i] != p) && (forall i :: 1 <= i < |l| ==> l[i] != n)
    && (forall i :: 1 <= i < |r| ==> r[i] != n) && (forall i :: 0 <= i < |r| - 1 ==> r[i] != p)
  }

  lemma GapOfList(m: Store, head: Ptr, a: seq<Ptr>, b: seq<Ptr>)
    requires IsList(m, head, a + b)
    ensures Gap(m, [head] + a, b + [head], ([head] + a)[|a|], (b + [head])[0])
  {
    var (l, r, ring) := ([head] + a, b + [head], [head] + (a + b));
    var full := ring + [head];
    assert full == l + r;
    assert forall i :: 0 <= i < |l| ==> l[i] == full[i] && l[i] == ring[i];
    assert forall i :: 0 <= i < |r| ==> r[i] == full[|l| + i];
    assert forall i :: 0 <= i < |b| ==> r[i] == ring[|l| + i];
    assert full[|a|] == l[|a|] && full[|a| + 1] == r[0];
    forall i | 1 <= i < |r|
      ensures r[i] != r[0]
    {
      assert i == |b| ==> r[i] == ring[0];
    }
    assert b == [] ==> r[0] == ring[0];
    assert b != [] ==> r[0] == ring[|l|];
  }

  /** Filling a gap with x. */
  lemma GapFilled(m: Store, l: seq<Ptr>, r: seq<Ptr>, p: Ptr, n: Ptr, x: Ptr)
    requires Gap(m, l, r, p, n) && x in m && x !in l && x !in r
    ensures Chained(AddedBetween(m, x, p, n), l + [x] + r)
  {
    var m' := AddedBetween(m, x, p, n);
    assert Chained(m', l) by { ChainKept(m, m', l); }
    assert Chained(m', r) by { ChainKept(m, m', r); }
    Bridge(m', l, [x]);
    Bridge(m', l + [x], r);
  }

  /** Taking out x, which fills the gap between l and r. */
  lemma GapClosed(m: Store, l: seq<Ptr>, r: seq<Ptr>, x: Ptr)
    requires l != [] && r != [] && Gap(m, l, [x] + r, l[|l| - 1], x) && Gap(m, l + [x], r, x, r[0])
    requires x !in l && x !in r
    ensures x in m && m[x].next == r[0] && m[x].prev == l[|l| - 1]
    ensures Chained(Deleted(m, x), l + r)
  {
    var m' := Deleted(m, x);
    var (p, n) := (l[|l| - 1], r[0]);
    assert forall i :: 1 <= i < |l| ==> l[i] != n by {
      assert forall i :: 1 <= i < |l| ==> (l + [x])[i] == l[i];
    }
    assert forall i :: 0 <= i < |r| - 1 ==> r[i] != p by {
      assert forall i :: 0 <= i < |r| - 1 ==> ([x] + r)[i + 1] == r[i];
    }
    assert Chained(m', l) by { ChainKept(m, m', l); }
    assert Chained(m', r) by { ChainKept(m, m', r); }
    Bridge(m', l, r);
  }

  /** __list_add between two neighbours inserts there. */
  lemma AddBetweenInserts(m: Store, head: Ptr, a: seq<Ptr>, b: seq<Ptr>, x: Ptr)
    requires IsList(m, head, a + b) && x in m && x != head && x !in a + b
    ensures
      var (p, n) := (([head] + a)[|a|], (b + [head])[0]);
      && p in m && n in m && m[p].next == n && m[n].prev == p
      && IsList(AddedBetween(m, x, p, n), head, a + [x] + b)
  {
    var (l, r) := ([head] + a, b + [head]);
    GapOfList(m, head, a, b);
    assert x !in l && x !in r;
    GapFilled(m, l, r, l[|a|], r[0], x);
    assert l + [x] + r == [head] + (a + [x] + b) + [head];
    assert [head] + (a + [x] + b) == l + [x] + b;
    assert l + b == [head] + (a + b);
    DistinctInsert(l, x, b);
  }

  /** list_add puts x in front. */
  lemma AddIsPush(m: Store, head: Ptr, s: seq<Ptr>, x: Ptr)
    requires IsList(m, head, s) && x in m && x != head && x !in s
    ensures head in m && m[head].next in m && IsList(Added(m, x, head), head, [x] + s)
  {
    assert [] + s == s && [] + [x] + s == [x] + s;
    AddBetweenInserts(m, head, [], s, x);
  }

  /** list_add_tail puts x at the end. */
  lemma AddTailIsAppend(m: Store, head: Ptr, s: seq<Ptr>, x: Ptr)
    requires IsList(m, head, s) && x in m && x != head && x !in s
    ensures head in m && m[head].prev in m && IsList(AddedBetween(m, x, m[head].prev, head), head, s + [x])
  {
    assert s + [] == s && s + [x] + [] == s + [x];
    AddBetweenInserts(m, head, s, [], x);
  }

  /** list_del takes x out and leaves the order of the others. */
  lemma DelRemoves(m: Store, head: Ptr, a: seq<Ptr>, x: Ptr, b: seq<Ptr>)
    requires IsList(m, head, a + [x] + b)
    ensures x in m && m[x].next in m && m[x].prev in m && IsList(Deleted(m, x), head, a + b)
  {
    var (l, r, ring) := ([head] + a, b + [head], [head] + (a + [x] + b));
    assert a + ([x] + b) == a + [x] + b && [x] + b + [head] == [x] + r && [head] + (a + [x]) == l + [x];
    GapOfList(m, head, a, [x] + b);
    GapOfList(m, head, a + [x], b);
    assert ring == l + [x] + b;
    assert ring[|l|] == x;
    assert x !in l by { assert forall i :: 0 <= i < |l| ==> l[i] == ring[i]; }
    assert x !in r by { assert forall i :: 0 <= i < |b| ==> b[i] == ring[|l| + 1 + i]; assert head == ring[0]; }
    GapClosed(m, l, r, x);
    assert l + r == [head] + (a + b) + [head] && l + b == [head] + (a + b);
    DistinctRemove(l, x, b);
  }

  lemma DistinctRemove(a: seq<Ptr>, x: Ptr, b: seq<Ptr>)
    requires Distinct(a + [x] + b)
    ensures Distinct(a + b)
  {
    var (r, s) := (a + [x] + b, a + b);
    forall i, j | 0 <= i < j < |s|
      ensures s[i] != s[j]
    {
      assert s[i] == r[if i < |a| then i else i + 1];
      assert s[j] == r[if j < |a| then j else j + 1];
    }
  }

  /** Of a list whose entries are linked once each, list_del and list_add move x to the
      front. */
  lemma UpdateIsMoveToFront(m: Store, head: Ptr, a: seq<Ptr>, x: Ptr, b: seq<Ptr>)
    requires IsList(m, head, a + [x] + b)
    ensures x in m && m[x].next in m && m[x].prev in m
    ensures head in Deleted(m, x) && Deleted(m, x)[head].next in Deleted(m, x)
    ensures IsList(Added(Deleted(m, x), x, head), head, [x] + (a + b))
  {
    var ring := [head] + (a + [x] + b);
    assert ring[1 + |a|] == x && ring[0] == head;
    DelRemoves(m, head, a, x, b);
    forall i | 0 <= i < |a + b| ensures (a + b)[i] != x {
      assert (a + b)[i] == ring[if i < |a| then i + 1 else i + 2];
    }
    AddIsPush(Deleted(m, x), head, a + b, x);
  }

  lemma DistinctInsert(a: seq<Ptr>, x: Ptr, b: seq<Ptr>)
    requires Distinct(a + b) && x !in a && x !in b
    ensures Distinct(a + [x] + b)
  {
    var (r, s) := (a + [x] + b, a + b);
    forall i, j | 0 <= i < j < |r|
      ensures r[i] != r[j]
    {
      assert i < |a| ==> r[i] == s[i];
      assert i > |a| ==> r[i] == s[i - 1];
      assert j < |a| ==> r[j] == s[j];
      assert j > |a| ==> r[j] == s[j - 1];
    }
  }

  // ----- recency

  /** mempage_cluster_lru_list_update: nothing for the first entry, otherwise list_del and
      list_add. */
  function Updated(m: Store, head: Ptr, x: Ptr): Store {
    if head in m && m[head].next == x then m
    else if x in m && m[x].next in m && m[x].prev in m && head in Deleted(m, x)
            && Deleted(m, x)[head].next in Deleted(m, x) then Added(Deleted(m, x), x, head)
    else m
  }

  /** mempage_cluster_lru_list_insert of an entry in fresh memory. */
  function Inserted(m: Store, head: Ptr, x: Ptr): Store {
    var m' := m[x := Links(0, 0)];
    if head in m' && m'[head].next in m' then Added(m', x, head) else m'
  }

  /** What happens to the list: a new entry, or a touch of one that is there. */
  datatype ListOp = Insert(x: Ptr) | Touch(x: Ptr)

  function Applied(m: Store, head: Ptr, op: ListOp): Store {
    match op
    case Insert(x) => Inserted(m, head, x)
    case Touch(x) => Updated(m, head, x)
  }

  function AppliedRun(m: Store, head: Ptr, ops: seq<ListOp>): Store {
    if |ops| == 0 then m else Applied(AppliedRun(m, head, ops[..|ops| - 1]), head, ops[|ops| - 1])
  }

  /** The entries, the one inserted or touched last in front. */
  function Recency(s: seq<Ptr>, ops: seq<ListOp>): seq<Ptr> {
    if |ops| == 0 then s
    else
      var (r, op) := (Recency(s, ops[..|ops| - 1]), ops[|ops| - 1]);
      [op.x] + Without(r, op.x)
  }

  /** New entries are not in the list yet, and only entries of the list are touched. */
  predicate Proper(head: Ptr, s: seq<Ptr>, ops: seq<ListOp>) {
    |ops| == 0 ||
    var (front, op) := (ops[..|ops| - 1], ops[|ops| - 1]);
    Proper(head, s, front) && op.x != head && (op.Touch? <==> op.x in Recency(s, front))
  }

  /** The number of the last operation on x, or -1. */
  function LastTouch(ops: seq<ListOp>, x: Ptr): int {
    if |ops| == 0 then -1
    else if ops[|ops| - 1].x == x then |ops| - 1
    else LastTouch(ops[..|ops| - 1], x)
  }

  lemma {:induction false} LastTouchBound(ops: seq<ListOp>, x: Ptr)
    ensures -1 <= LastTouch(ops, x) < |ops|
  {
    if |ops| > 0 {
      LastTouchBound(ops[..|ops| - 1], x);
    }
  }

  lemma SplitAt(s: seq<Ptr>, x: Ptr) returns (a: seq<Ptr>, b: seq<Ptr>)
    requires x in s && Distinct(s)
    ensures s == a + [x] + b && Without(s, x) == a + b
  {
    var k := IndexOf(s, x);
    IndexOfMeaning(s, x);
    a, b := s[..k], s[k + 1..];
    SplitOut(s, a, x, b);
  }

  lemma OtherLinks(m: Store, head: Ptr, s: seq<Ptr>, x: Ptr, l: Links)
    requires IsList(m, head, s) && x != head && x !in s
    ensures IsList(m[x := l], head, s)
  {
    var r := [head] + s + [head];
    assert forall i :: 0 <= i < |r| ==> r[i] == head || r[i] in s;
    ChainKept(m, m[x := l], r);
  }

  lemma DistinctTail(head: Ptr, s: seq<Ptr>)
    requires Distinct([head] + s)
    ensures Distinct(s) && head !in s
  {
    var r := [head] + s;
    forall i | 0 <= i < |s|
      ensures s[i] != head
    {
      assert r[i + 1] == s[i] && r[0] == head;
    }
    forall i, j | 0 <= i < j < |s|
      ensures s[i] != s[j]
    {
      assert r[i + 1] == s[i] && r[j + 1] == s[j];
    }
  }

  lemma InsertedIsPush(m: Store, head: Ptr, r: seq<Ptr>, x: Ptr)
    requires IsList(m, head, r) && x != head && x !in r
    ensures IsList(Inserted(m, head, x), head, [x] + r)
  {
    OtherLinks(m, head, r, x, Links(0, 0));
    AddIsPush(m[x := Links(0, 0)], head, r, x);
  }

  lemma UpdatedIsMoveToFront(m: Store, head: Ptr, r: seq<Ptr>, x: Ptr)
    requires IsList(m, head, r) && x in r
    ensures IsList(Updated(m, head, x), head, [x] + Without(r, x))
  {
    DistinctTail(head, r);
    var a, b := SplitAt(r, x);
    UpdateIsMoveToFront(m, head, a, x, b);
    FirstInFront(m, head, a, x, b);
    assert a == [] ==> r == [x] + (a + b);
  }

  /** The links of a list that is used properly, through any number of insertions and
      touches: the list of the entries, most recent first. */
  lemma {:induction false} UpdatesKeepRecency(m: Store, head: Ptr, s: seq<Ptr>, ops: seq<ListOp>)
    requires IsList(m, head, s) && Proper(head, s, ops)
    ensures IsList(AppliedRun(m, head, ops), head, Recency(s, ops))
  {
    if |ops| > 0 {
      var (front, op) := (ops[..|ops| - 1], ops[|ops| - 1]);
      UpdatesKeepRecency(m, head, s, front);
      var (m', r) := (AppliedRun(m, head, front), Recency(s, front));
      if op.Insert? {
        WithoutAbsent(r, op.x);
        InsertedIsPush(m', head, r, op.x);
      } else {
        UpdatedIsMoveToFront(m', head, r, op.x);
      }
    }
  }

  lemma FirstInFront(m: Store, head: Ptr, a: seq<Ptr>, x: Ptr, b: seq<Ptr>)
    requires IsList(m, head, a + [x] + b)
    ensures head in m && (m[head].next == x ==> a == [])
  {
    var ring := [head] + (a + [x] + b);
    var full := ring + [head];
    assert full[0] == head && full[1] == ring[1] && ring[1 + |a|] == x;
    assert m[full[0]].next == full[1];
  }

  /** Earlier in the list means later touched. */
  ghost predicate Ordered(ops: seq<ListOp>, r: seq<Ptr>) {
    forall i, j :: 0 <= i < j < |r| ==> LastTouch(ops, r[i]) >= LastTouch(ops, r[j])
  }

  /** The entries other than x keep their order. */
  lemma OthersOrdered(ops: seq<ListOp>, op: ListOp, r: seq<Ptr>)
    requires Ordered(ops, r) && op.x !in r
    ensures Ordered(ops + [op], [op.x] + r)
  {
    var (after, q) := (ops + [op], [op.x] + r);
    assert after[..|ops|] == ops;
    forall i, j | 0 <= i < j < |q|
      ensures LastTouch(after, q[i]) >= LastTouch(after, q[j])
    {
      assert q[j] == r[j - 1];
      LastTouchBound(ops, q[j]);
      assert i > 0 ==> q[i] == r[i - 1];
    }
  }

  lemma WithoutOrdered(ops: seq<ListOp>, a: seq<Ptr>, x: Ptr, b: seq<Ptr>)
    requires Ordered(ops, a + [x] + b)
    ensures Ordered(ops, a + b)
  {
    var (r, q) := (a + [x] + b, a + b);
    forall i, j | 0 <= i < j < |q|
      ensures LastTouch(ops, q[i]) >= LastTouch(ops, q[j])
    {
      assert q[i] == r[if i < |a| then i else i + 1] && q[j] == r[if j < |a| then j else j + 1];
    }
  }

  /** What is left without x. */
  lemma WithoutFacts(ops: seq<ListOp>, r: seq<Ptr>, x: Ptr)
    requires Distinct(r) && Ordered(ops, r)
    ensures var q := Without(r, x); Distinct(q) && x !in q && Ordered(ops, q)
  {
    if x in r {
      var a, b := SplitAt(r, x);
      DistinctRemove(a, x, b);
      WithoutOrdered(ops, a, x, b);
      assert r[|a|] == x;
      assert forall i :: 0 <= i < |a + b| ==> (a + b)[i] == r[if i < |a| then i else i + 1];
    } else {
      WithoutAbsent(r, x);
    }
  }

  lemma {:induction false} RecencyOrdered(s: seq<Ptr>, ops: seq<ListOp>)
    requires Distinct(s)
    ensures Distinct(Recency(s, ops)) && Ordered(ops, Recency(s, ops))
  {
    if |ops| > 0 {
      var (front, op) := (ops[..|ops| - 1], ops[|ops| - 1]);
      RecencyOrdered(s, front);
      var r := Recency(s, front);
      WithoutFacts(front, r, op.x);
      OthersOrdered(front, op, Without(r, op.x));
      assert front + [op] == ops;
    }
  }

  /** Through any number of insertions and touches of a list that is used properly, the
      entry before the head, which is the cluster that list_last_entry picks, is the one
      whose last use is longest ago. */
  lemma LastIsLeastRecent(m: Store, head: Ptr, s: seq<Ptr>, ops: seq<ListOp>)
    requires IsList(m, head, s) && Proper(head, s, ops) && Recency(s, ops) != []
    ensures
      var (m', r) := (AppliedRun(m, head, ops), Recency(s, ops));
      && head in m' && m'[head].prev in r
      && forall x :: x in r ==> LastTouch(ops, m'[head].prev) <= LastTouch(ops, x)
  {
    UpdatesKeepRecency(m, head, s, ops);
    DistinctTail(head, s);
    RecencyOrdered(s, ops);
    var r := Recency(s, ops);
    var ring := [head] + r + [head];
    assert ring[|r| + 1] == head && ring[|r|] == r[|r| - 1];
    forall x | x in r
      ensures LastTouch(ops, r[|r| - 1]) <= LastTouch(ops, x)
    {
      var i :| 0 <= i < |r| && r[i] == x;
    }
  }

  // ----- an entry added while it is already first

  /** The links of an entry lead to an entry, backwards perhaps to the head. */
  ghost predicate Entry(m: Store, head: Ptr, entries: set<Ptr>, x: Ptr) {
    x in m && m[x].next in entries && (m[x].prev in entries || m[x].prev == head)
  }

  /** Every link points to the head or to an entry, but no entry leads forward to the
      head any more, and the head's back link is first. */
  ghost predicate Stuck(m: Store, head: Ptr, first: Ptr, entries: set<Ptr>) {
    && m.Keys == entries + {head} && head !in entries && first in entries
    && m[head].next in entries && m[head].prev == first
    && forall x {:trigger Entry(m, head, entries, x)} :: x in entries ==> Entry(m, head, entries, x)
  }

  /** The second list_add of the only entry makes it point to itself. */
  lemma AddedTwice(m: Store, head: Ptr, x: Ptr)
    requires m.Keys == {head, x} && x != head && m[head] == Links(x, x) && m[x] == Links(head, head)
    ensures Stuck(Added(m, x, head), head, x, {x})
  {
    assert m[head].next == x;
  }

  lemma AddKeepsStuck(m: Store, head: Ptr, first: Ptr, entries: set<Ptr>, x: Ptr)
    requires Stuck(m, head, first, entries) && x in entries
    ensures Stuck(Added(m, x, head), head, first, entries)
  {
    var n := m[head].next;
    var m' := AddedBetween(m, x, head, n);
    assert m'.Keys == m.Keys;
    AddedAt(m, x, head, n, head);
    forall y | y in entries ensures Entry(m', head, entries, y) {
      AddKeepsEntry(m, head, first, entries, x, y);
    }
  }

  lemma AddKeepsEntry(m: Store, head: Ptr, first: Ptr, entries: set<Ptr>, x: Ptr, y: Ptr)
    requires Stuck(m, head, first, entries) && x in entries && y in entries
    ensures Entry(AddedBetween(m, x, head, m[head].next), head, entries, y)
  {
    assert Entry(m, head, entries, y);
    AddedAt(m, x, head, m[head].next, y);
  }

  lemma AddedAt(m: Store, x: Ptr, p: Ptr, n: Ptr, y: Ptr)
    requires x in m && p in m && n in m && y in m
    ensures y in AddedBetween(m, x, p, n)
    ensures AddedBetween(m, x, p, n)[y]
            == Links(if y == p then x else if y == x then n else m[y].next,
                     if y == x then p else if y == n then x else m[y].prev)
  {
  }

  lemma DeletedAt(m: Store, x: Ptr, y: Ptr)
    requires x in m && m[x].next in m && m[x].prev in m && y in m
    ensures y in Deleted(m, x)
    ensures Deleted(m, x)[y]
            == if y == x then Links(POISON1, POISON2)
               else Links(if y == m[x].prev then m[x].next else m[y].next,
                          if y == m[x].next then m[x].prev else m[y].prev)
  {
  }

  /** A new entry, whatever its links held before. */
  lemma AddNewKeepsStuck(m: Store, m1: Store, head: Ptr, first: Ptr, entries: set<Ptr>, x: Ptr, junk: Links)
    requires Stuck(m, head, first, entries) && x !in m && m1 == m[x := junk]
    ensures head in m1 && m1[head].next in m1
    ensures Stuck(Added(m1, x, head), head, first, entries + {x})
  {
    assert head != x && m1[head] == m[head];
    var n := m1[head].next;
    assert n in entries && n != head && first != x;
    assert m1.Keys == (entries + {x}) + {head};
    AddedAt(m1, x, head, n, head);
    AddedAt(m1, x, head, n, x);
    forall y | y in entries + {x} ensures Entry(AddedBetween(m1, x, head, n), head, entries + {x}, y) {
      if y != x {
        assert Entry(m, head, entries, y) && m1[y] == m[y];
        AddedAt(m1, x, head, n, y);
      }
    }
  }

  lemma StuckEntry(m: Store, head: Ptr, first: Ptr, entries: set<Ptr>, x: Ptr)
    requires Stuck(m, head, first, entries) && x in entries
    ensures x in m && head in m && m[x].next in m && m[x].prev in m
  {
    assert Entry(m, head, entries, x);
  }

  lemma UpdateKeepsStuck(m: Store, d: Store, head: Ptr, first: Ptr, entries: set<Ptr>, x: Ptr)
    requires Stuck(m, head, first, entries) && x in entries && m[head].next != x
    requires x in m && m[x].next in m && m[x].prev in m && d == Deleted(m, x)
    ensures x in d && head in d && d[head].next in d && Stuck(Added(d, x, head), head, first, entries)
  {
    assert Entry(m, head, entries, x);
    DeletedAt(m, x, head);
    DeletedAt(m, x, x);
    assert d.Keys == m.Keys;
    var n := d[head].next;
    assert n in entries;
    AddedAt(d, x, head, n, head);
    forall y | y in entries ensures Entry(AddedBetween(d, x, head, n), head, entries, y) {
      assert Entry(m, head, entries, y);
      DeletedAt(m, x, y);
      AddedAt(d, x, head, n, y);
    }
  }
}
