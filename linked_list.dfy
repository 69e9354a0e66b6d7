/**
 A generic singly linked list with an embedded sentinel head node.

 The container owns a sentinel `head` whose `next` link is the first real
 element; the sentinel gives the "before-begin" position, so insertion and
 removal at the front go through the same "after a position" operations as
 everywhere else. A position (the C++ iterator) is a reference to a node:
 the sentinel is before-begin, a real node is an element, `null` is end.

 The ghost field `nodes` lists the real nodes in chain order, `Contents`
 their values, and `Repr` the objects the container owns.
 */
module LinkedList {

  /** One link of the chain: a value and the following node (or null). */
  class Node<T(0)> {
    var value: T
    var next: Node?<T>

    /** The sentinel: its value is the element type's default and is never read. */
    constructor Sentinel()
      ensures next == null
    {
      next := null;
    }

    constructor (value: T, next: Node?<T>)
      ensures this.value == value && this.next == next
    {
      this.value := value;
      this.next := next;
    }
  }

  /**
   A forward cursor over a node; `Iterator(null)` is end. It is a value, as
   the C++ iterator is: copying it copies the cursor, and `++it` is
   `it := it.Next()`. Iterator equality is equality of the referenced node.
   */
  datatype Iterator<T(0)> = Iterator(node: Node?<T>)
  {
    /** `*it`: the value of the referenced node; end cannot be dereferenced. */
    function Deref(): (v: T)
      reads node
      requires node != null
      ensures v == node.value
    {
      node.value
    }

    /** `++it`: the cursor on the successor node; end cannot be advanced. */
    function Next(): (it: Iterator<T>)
      reads node
      requires node != null
      ensures it.node == node.next
    {
      Iterator(node.next)
    }
  }

  /** No node occurs twice in `s`. */
  ghost predicate Distinct<T(0)>(s: seq<Node<T>>)
  {
    forall i, j :: 0 <= i < j < |s| ==> s[i] != s[j]
  }

  /** The set of nodes occurring in `s`. */
  ghost function Elements<T(0)>(s: seq<Node<T>>): set<object>
  {
    set n | n in s
  }

  /** A sequence headed by `h` is distinct exactly when its tail is and does not hold `h`. */
  lemma DistinctCons<T(0)>(h: Node<T>, s: seq<Node<T>>)
    ensures Distinct([h] + s) <==> h !in s && Distinct(s)
  {
    var c := [h] + s;
    if Distinct(c) {
      forall i | 0 <= i < |s| ensures s[i] != h {
        assert c[0] == h && c[i + 1] == s[i];
      }
      forall i, j | 0 <= i < j < |s| ensures s[i] != s[j] {
        assert s[i] == c[i + 1] && s[j] == c[j + 1];
      }
    }
    if h !in s && Distinct(s) {
      forall i, j | 0 <= i < j < |c| ensures c[i] != c[j] {
        assert c[j] == s[j - 1];
        if i > 0 {
          assert c[i] == s[i - 1];
        }
      }
    }
  }

  /** Removing the node at `k` from a distinct sequence keeps it distinct and drops just that node. */
  lemma DistinctRemove<T(0)>(s: seq<Node<T>>, k: nat)
    requires Distinct(s) && k < |s|
    ensures Distinct(s[..k] + s[k + 1..])
    ensures Elements(s[..k] + s[k + 1..]) == Elements(s) - {s[k]}
  {
    var r := s[..k] + s[k + 1..];
    forall i, j | 0 <= i < j < |r| ensures r[i] != r[j] {
      var i', j' := if i < k then i else i + 1, if j < k then j else j + 1;
      assert r[i] == s[i'] && r[j] == s[j'];
    }
    forall x | x in r ensures x in s && x != s[k] {
      var i :| 0 <= i < |r| && r[i] == x;
      var i' := if i < k then i else i + 1;
      assert r[i] == s[i'];
    }
    forall x | x in s && x != s[k] ensures x in r {
      var i :| 0 <= i < |s| && s[i] == x;
      assert x == r[if i < k then i else i - 1];
    }
  }

  /** Inserting a node not yet present keeps a sequence distinct and adds just that node. */
  lemma DistinctInsert<T(0)>(s: seq<Node<T>>, k: nat, x: Node<T>)
    requires Distinct(s) && k <= |s| && x !in s
    ensures Distinct(s[..k] + [x] + s[k..])
    ensures Elements(s[..k] + [x] + s[k..]) == Elements(s) + {x}
  {
    var r := s[..k] + [x] + s[k..];
    assert r[k] == x;
    forall i, j | 0 <= i < j < |r| ensures r[i] != r[j] {
      if i != k && j != k {
        var i', j' := if i < k then i else i - 1, if j < k then j else j - 1;
        assert r[i] == s[i'] && r[j] == s[j'];
      } else if i == k {
        assert r[j] == s[j - 1];
      } else {
        assert r[i] == s[i];
      }
    }
    forall y | y in r && y != x ensures y in s {
      var i :| 0 <= i < |r| && r[i] == y;
      assert r[i] == s[if i < k then i else i - 1];
    }
    forall y | y in s ensures y in r {
      var i :| 0 <= i < |s| && s[i] == y;
      assert y == r[if i < k then i else i + 1];
    }
  }

  /** Where each element of `s` lands once `x` is inserted at index `k`. */
  lemma InsertIndices<X>(s: seq<X>, k: nat, x: X)
    requires k <= |s|
    ensures |s[..k] + [x] + s[k..]| == |s| + 1
    ensures forall i :: 0 <= i <= |s| ==>
      (s[..k] + [x] + s[k..])[i] == if i < k then s[i] else if i == k then x else s[i - 1]
  {
  }

  /** Where each element of `s` lands once the one at index `k` is removed. */
  lemma RemoveIndices<X>(s: seq<X>, k: nat)
    requires k < |s|
    ensures |s[..k] + s[k + 1..]| == |s| - 1
    ensures forall i :: 0 <= i < |s| - 1 ==>
      (s[..k] + s[k + 1..])[i] == if i < k then s[i] else s[i + 1]
  {
  }

  /** Inserting after index `k` of `s` is inserting after index `k + 1` of `[h] + s`. */
  lemma ConsInsert<X>(h: X, s: seq<X>, k: nat, x: X)
    requires k <= |s|
    ensures var c := [h] + s;
      && [h] + (s[..k] + [x] + s[k..]) == c[..k] + [c[k], x] + c[k + 1..]
      && [h] + (s[..k] + [x] + s[k..]) == c[..k + 1] + [x] + c[k + 1..]
  {
  }

  /** Removing index `k` of `s` is removing index `k + 1` of `[h] + s`. */
  lemma ConsRemove<X>(h: X, s: seq<X>, k: nat)
    requires k < |s|
    ensures var c := [h] + s;
      && [h] + (s[..k] + s[k + 1..]) == c[..k] + [c[k]] + c[k + 2..]
      && [h] + (s[..k] + s[k + 1..]) == c[..k + 1] + c[k + 2..]
  {
  }

  /** The nodes of `s` hold the values `vals`, one for one. */
  ghost predicate ValuesAre<T(0)>(s: seq<Node<T>>, vals: seq<T>)
    reads s`value
  {
    && |s| == |vals|
    && forall i :: 0 <= i < |s| ==> s[i].value == vals[i]
  }

  /** Inserting a node into the chain inserts its value at the same index. */
  lemma ValuesInsert<T(0)>(s: seq<Node<T>>, vals: seq<T>, k: nat, n: Node<T>)
    requires ValuesAre(s, vals) && k <= |s|
    ensures ValuesAre(s[..k] + [n] + s[k..], vals[..k] + [n.value] + vals[k..])
  {
    InsertIndices(s, k, n);
    InsertIndices(vals, k, n.value);
  }

  /** Removing a node from the chain removes the value at the same index. */
  lemma ValuesRemove<T(0)>(s: seq<Node<T>>, vals: seq<T>, k: nat)
    requires ValuesAre(s, vals) && k < |s|
    ensures ValuesAre(s[..k] + s[k + 1..], vals[..k] + vals[k + 1..])
  {
    RemoveIndices(s, k);
    RemoveIndices(vals, k);
  }

  /** The node at index `k` of `s`, or `end` just past the last one. */
  ghost function At<T(0)>(s: seq<Node<T>>, k: nat, end: Node?<T>): Node?<T>
    requires k <= |s|
  {
    if k < |s| then s[k] else end
  }

  /**
   Following `next` links from `first` visits exactly the nodes of `s`, in
   order, and then reaches `end`.
   */
  ghost predicate Segment<T(0)>(first: Node?<T>, s: seq<Node<T>>, end: Node?<T>)
    reads s`next
  {
    && first == At(s, 0, end)
    && forall i {:trigger s[i].next} :: 0 <= i < |s| ==> s[i].next == At(s, i + 1, end)
  }

  /** Two segments that meet form one segment. */
  lemma SegmentAppend<T(0)>(first: Node?<T>, a: seq<Node<T>>, mid: Node?<T>, b: seq<Node<T>>, end: Node?<T>)
    requires Segment(first, a, mid) && Segment(mid, b, end)
    ensures Segment(first, a + b, end)
  {
    var s := a + b;
    forall i | 0 <= i < |s| ensures s[i].next == At(s, i + 1, end) {
      if i < |a| {
        assert s[i] == a[i];
        assert a[i].next == At(a, i + 1, mid);
      } else {
        assert s[i] == b[i - |a|];
        assert b[i - |a|].next == At(b, i - |a| + 1, end);
      }
    }
  }

  /** A segment cut at index `k` is two segments meeting at the node at `k`. */
  lemma SegmentSplit<T(0)>(first: Node?<T>, s: seq<Node<T>>, end: Node?<T>, k: nat)
    requires Segment(first, s, end) && k <= |s|
    ensures Segment(first, s[..k], At(s, k, end))
    ensures Segment(At(s, k, end), s[k..], end)
  {
    forall i | 0 <= i < k ensures s[..k][i].next == At(s[..k], i + 1, At(s, k, end)) {
      assert s[..k][i] == s[i];
      assert s[i].next == At(s, i + 1, end);
    }
    forall i | 0 <= i < |s| - k ensures s[k..][i].next == At(s[k..], i + 1, end) {
      assert s[k..][i] == s[k + i];
      assert s[k + i].next == At(s, k + i + 1, end);
    }
  }

  /**
   Linking `n` in after index `k` of the chain `[h] + s`: the prefix up to
   that node and the suffix after it are untouched, the node at `k` now
   links to `n`, and `n` links to where the suffix starts.
   */
  lemma LinkInserted<T(0)>(h: Node<T>, s: seq<Node<T>>, k: nat, n: Node<T>)
    requires k <= |s|
    requires var c := [h] + s;
      && Segment(h, c[..k], c[k]) && c[k].next == n && Segment(n.next, c[k + 1..], null)
    ensures Segment(h, [h] + (s[..k] + [n] + s[k..]), null)
  {
    var c := [h] + s;
    ConsInsert(h, s, k, n);
    assert Segment(c[k], [c[k], n], n.next);
    SegmentAppend(h, c[..k], c[k], [c[k], n], n.next);
    SegmentAppend(h, c[..k] + [c[k], n], n.next, c[k + 1..], null);
  }

  /**
   Unlinking the node after index `k` of the chain `[h] + s`: the node at
   `k` now links to where the suffix after the removed node starts.
   */
  lemma LinkRemoved<T(0)>(h: Node<T>, s: seq<Node<T>>, k: nat)
    requires k < |s|
    requires var c := [h] + s;
      && Segment(h, c[..k], c[k]) && Segment(c[k].next, c[k + 2..], null)
    ensures Segment(h, [h] + (s[..k] + s[k + 1..]), null)
  {
    var c := [h] + s;
    ConsRemove(h, s, k);
    assert Segment(c[k], [c[k]], c[k].next);
    SegmentAppend(h, c[..k], c[k], [c[k]], c[k].next);
    SegmentAppend(h, c[..k] + [c[k]], c[k].next, c[k + 2..], null);
  }

  /** A fresh node inserted after index `k` of `[h] + s` keeps the chain distinct. */
  lemma DistinctInserted<T(0)>(h: Node<T>, s: seq<Node<T>>, k: nat, x: Node<T>)
    requires Distinct([h] + s) && k <= |s| && x != h && x !in s
    ensures Distinct([h] + (s[..k] + [x] + s[k..]))
    ensures Elements(s[..k] + [x] + s[k..]) == Elements(s) + {x}
  {
    ConsInsert(h, s, k, x);
    DistinctInsert([h] + s, k + 1, x);
    DistinctCons(h, s);
    DistinctInsert(s, k, x);
  }

  /** Removing the node at index `k` of `s` keeps `[h] + s` distinct and drops just that node. */
  lemma DistinctRemoved<T(0)>(h: Node<T>, s: seq<Node<T>>, k: nat)
    requires Distinct([h] + s) && k < |s|
    ensures Distinct([h] + (s[..k] + s[k + 1..]))
    ensures Elements(s[..k] + s[k + 1..]) == Elements(s) - {s[k]}
  {
    ConsRemove(h, s, k);
    DistinctRemove([h] + s, k + 1);
    DistinctCons(h, s);
    DistinctRemove(s, k);
  }

  /**
   The chain reachable from a node is unique: two node sequences that both
   follow the links from `first` to null are the same sequence.
   */
  lemma {:induction false} ChainUnique<T(0)>(first: Node?<T>, s: seq<Node<T>>, t: seq<Node<T>>)
    requires Segment(first, s, null) && Segment(first, t, null)
    ensures s == t
    decreases |s|
  {
    if s != [] && t != [] {
      SegmentSplit(first, s, null, 1);
      SegmentSplit(first, t, null, 1);
      assert s[0].next == At(s, 1, null) && t[0].next == At(t, 1, null);
      ChainUnique(s[0].next, s[1..], t[1..]);
      assert s == [s[0]] + s[1..] && t == [t[0]] + t[1..];
    }
  }

  /** The reverse of a sequence: its last element first. */
  function Reverse<X>(s: seq<X>): (r: seq<X>)
    ensures |r| == |s|
  {
    if s == [] then [] else [s[|s| - 1]] + Reverse(s[..|s| - 1])
  }

  /** Index `i` of the reverse is index `|s| - 1 - i` of the original. */
  lemma {:induction false} ReverseAt<X>(s: seq<X>, i: nat)
    requires i < |s|
    ensures Reverse(s)[i] == s[|s| - 1 - i]
    decreases |s|
  {
    if i > 0 {
      ReverseAt(s[..|s| - 1], i - 1);
    }
  }

  /** Reversing twice gives back the original order. */
  lemma ReverseInvolution<X>(s: seq<X>)
    ensures Reverse(Reverse(s)) == s
  {
    var r := Reverse(Reverse(s));
    forall i | 0 <= i < |s| ensures r[i] == s[i] {
      ReverseAt(Reverse(s), i);
      ReverseAt(s, |s| - 1 - i);
    }
  }

  /** Pushing `s[i]` to the front of the reverse of `s[..i]` gives the reverse of `s[..i + 1]`. */
  lemma ReversePrefixStep<X>(s: seq<X>, i: nat)
    requires i < |s|
    ensures Reverse(s[..i + 1]) == [s[i]] + Reverse(s[..i])
  {
    assert s[..i + 1][..i] == s[..i];
  }

  /** Putting `x` in front of `r + o` is putting it in front of `r`, then appending `o`. */
  lemma ConsAppend<X>(x: X, r: seq<X>, o: seq<X>)
    ensures [x] + (r + o) == ([x] + r) + o
  {
  }

  /** A sentinel `h` heads a chain to null exactly when its successor starts one. */
  lemma SentinelChain<T(0)>(h: Node<T>, s: seq<Node<T>>)
    ensures Segment(h, [h] + s, null) <==> Segment(h.next, s, null)
  {
    var c := [h] + s;
    assert c[..1] == [h] && c[1..] == s;
    if Segment(h, c, null) {
      SegmentSplit(h, c, null, 1);
    }
    if Segment(h.next, s, null) {
      assert Segment(h, [h], h.next);
      SegmentAppend(h, [h], h.next, s, null);
    }
  }

  class SingleLinkedList<T(0)> {
    /** The sentinel, embedded in the container for its whole lifetime. */
    const head: Node<T>
    /** The stored element count (`size_`). */
    var size: nat

    ghost var nodes: seq<Node<T>>
    ghost var Contents: seq<T>
    ghost var Repr: set<object>

    /**
     The container invariant: the links from the sentinel visit the distinct
     real nodes in order and end in null, the stored size is their number,
     and the container owns the sentinel and exactly those nodes.
     */
    ghost predicate Valid()
      reads this, Repr
      ensures Valid() ==> this in Repr && head in Repr
    {
      && Repr == {this, head} + Elements(nodes)
      && Distinct([head] + nodes)
      && Segment(head, [head] + nodes, null)
      && size == |nodes|
      && ValuesAre(nodes, Contents)
    }

    /** The node standing at position `k`: 0 is before-begin, `i + 1` is the element at index `i`. */
    ghost function PosNode(k: nat): Node<T>
      reads this
      requires k <= |nodes|
    {
      ([head] + nodes)[k]
    }

    /** The node after position `k`: the element at index `k`, or null past the last one. */
    ghost function Succ(k: nat): Node?<T>
      reads this
      requires k <= |nodes|
    {
      At(nodes, k, null)
    }

    /** `p` is a position one can insert or erase after: before-begin or an element. */
    ghost predicate IsPosition(p: Node?<T>)
      reads this
    {
      p != null && p in [head] + nodes
    }

    /** The position number of `p`. */
    ghost function Offset(p: Node?<T>): (k: nat)
      reads this
      requires IsPosition(p)
      ensures k <= |nodes| && PosNode(k) == p
    {
      var k :| 0 <= k < |[head] + nodes| && ([head] + nodes)[k] == p; k
    }

    /** In a valid list the node at position `k` links to `Succ(k)`. */
    lemma PositionLinks(k: nat)
      requires Valid() && k <= |nodes|
      ensures PosNode(k).next == Succ(k)
    {
      var c := [head] + nodes;
      assert c[k].next == At(c, k + 1, null);
    }

    /**
     Records `s` and `vals` as the abstract state once the links from the
     sentinel have been rearranged to visit exactly the nodes of `s`.
     */
    ghost method Rechain(s: seq<Node<T>>, vals: seq<T>)
      requires Distinct([head] + s) && Segment(head, [head] + s, null)
      requires size == |s| && ValuesAre(s, vals)
      modifies this
      ensures Valid()
      ensures nodes == s && Contents == vals && Repr == {this, head} + Elements(s)
      ensures size == old(size)
    {
      nodes := s;
      Contents := vals;
      Repr := {this, head} + Elements(s);
    }

    /**
     Records the insertion of `n` after position `k` once the node at `k`
     has been linked to `n` and `n` to the old successor.
     */
    ghost method RecordInsert(k: nat, n: Node<T>)
      requires k <= |nodes| && n != head && n !in nodes
      requires Distinct([head] + nodes) && ValuesAre(nodes, Contents)
      requires Repr == {this, head} + Elements(nodes) && size == |nodes| + 1
      requires var c := [head] + nodes;
        && Segment(head, c[..k], c[k]) && c[k].next == n && Segment(n.next, c[k + 1..], null)
      modifies this
      ensures Valid() && size == old(size)
      ensures nodes == old(nodes[..k]) + [n] + old(nodes[k..]) && nodes[k] == n
      ensures Contents == old(Contents[..k]) + [n.value] + old(Contents[k..])
      ensures k == 0 ==> nodes == [n] + old(nodes) && Contents == [n.value] + old(Contents)
      ensures Repr == old(Repr) + {n}
    {
      LinkInserted(head, nodes, k, n);
      DistinctInserted(head, nodes, k, n);
      ValuesInsert(nodes, Contents, k, n);
      InsertIndices(nodes, k, n);
      assert k == 0 ==> nodes[..k] == [] && Contents[..k] == [];
      Rechain(nodes[..k] + [n] + nodes[k..], Contents[..k] + [n.value] + Contents[k..]);
    }

    /**
     Records the removal of the element at index `k` once the node at
     position `k` has been linked past it.
     */
    ghost method RecordErase(k: nat)
      requires k < |nodes| && Distinct([head] + nodes) && ValuesAre(nodes, Contents)
      requires Repr == {this, head} + Elements(nodes) && size == |nodes| - 1
      requires var c := [head] + nodes;
        && Segment(head, c[..k], c[k]) && Segment(c[k].next, c[k + 2..], null)
      modifies this
      ensures Valid() && size == old(size)
      ensures nodes == old(nodes[..k]) + old(nodes[k + 1..])
      ensures Contents == old(Contents[..k]) + old(Contents[k + 1..])
      ensures k == 0 ==> nodes == old(nodes[1..]) && Contents == old(Contents[1..])
      ensures At(nodes, k, null) == At(old(nodes), k + 1, null)
      ensures Repr == old(Repr) - {old(nodes[k])}
    {
      assert nodes[k] != head by {
        assert ([head] + nodes)[k + 1] == nodes[k];
      }
      LinkRemoved(head, nodes, k);
      DistinctRemoved(head, nodes, k);
      ValuesRemove(nodes, Contents, k);
      RemoveIndices(nodes, k);
      assert k == 0 ==> nodes[..k] == [] && Contents[..k] == [];
      Rechain(nodes[..k] + nodes[k + 1..], Contents[..k] + Contents[k + 1..]);
    }

    /**
     In a valid list, the chain before position `k` and the chain from
     position `j` on are segments that do not contain the node at `k`;
     only the sentinel stands at position 0.
     */
    lemma Cut(k: nat, j: nat)
      requires Valid() && k < j <= |nodes| + 1
      ensures var c := [head] + nodes;
        && Segment(head, c[..k], c[k])
        && Segment(At(c, j, null), c[j..], null)
        && c[k] !in c[..k] && c[k] !in c[j..]
        && (c[k] == head ==> k == 0)
    {
      var c := [head] + nodes;
      SegmentSplit(head, c, null, j);
      SegmentSplit(head, c[..j], At(c, j, null), k);
      assert c[..j][..k] == c[..k];
    }

    /** An empty list: the sentinel's successor is null and the size is 0. */
    constructor ()
      ensures Valid() && fresh(Repr)
      ensures Contents == [] && nodes == []
    {
      head := new Node.Sentinel();
      size := 0;
      nodes := [];
      Contents := [];
      new;
      Repr := {this, head};
    }

    /** A list holding `values` in the given order (the initializer-list constructor). */
    constructor FromValues(values: seq<T>)
      ensures Valid() && fresh(Repr)
      ensures Contents == values
    {
      head := new Node.Sentinel();
      size := 0;
      nodes := [];
      Contents := [];
      new;
      Repr := {this, head};
      Assign(values);
    }

    /** A deep copy of `other`: same values in the same order, in nodes of its own. */
    constructor Copy(other: SingleLinkedList<T>)
      requires other.Valid()
      ensures Valid() && fresh(Repr)
      ensures Contents == other.Contents
    {
      head := new Node.Sentinel();
      size := 0;
      nodes := [];
      Contents := [];
      new;
      Repr := {this, head};
      AssignFrom(other);
    }

    /** The stored size, which is the number of elements. */
    function GetSize(): (n: nat)
      reads this, Repr
      requires Valid()
      ensures n == |Contents| == |nodes|
    {
      size
    }

    /** Emptiness, read from the stored size: true exactly when there are no elements. */
    function IsEmpty(): (b: bool)
      reads this, Repr
      requires Valid()
      ensures b <==> Contents == []
      ensures b <==> head.next == null
    {
      size == 0
    }

    /** `begin()`: the first element, or end when the list is empty. */
    function Begin(): (it: Iterator<T>)
      reads this, Repr
      requires Valid()
      ensures it.node == Succ(0)
      ensures it == End() <==> Contents == []
    {
      PositionLinks(0);
      Iterator(head.next)
    }

    /** `end()`: the position one reaches by advancing past the last element. */
    function End(): (it: Iterator<T>)
      reads this, Repr
      requires Valid()
      ensures it.node == Succ(|nodes|)
    {
      Iterator(null)
    }

    /** `before_begin()`: the sentinel, whose successor is `begin()`. */
    function BeforeBegin(): (it: Iterator<T>)
      reads this, Repr
      requires Valid()
      ensures IsPosition(it.node) && Offset(it.node) == 0
      ensures it.Next() == Begin()
    {
      Iterator(head)
    }

    /**
     Advancing from position `k` gives position `k + 1`, and from the last
     element gives end; dereferencing the element at index `k` gives `Contents[k]`.
     */
    lemma NextIsNextPosition(k: nat)
      requires Valid() && k <= |nodes|
      ensures Iterator(PosNode(k)).Next() == Iterator(Succ(k))
      ensures k < |nodes| ==> Succ(k) == PosNode(k + 1) && Iterator(Succ(k)).Deref() == Contents[k]
    {
      PositionLinks(k);
    }

    /**
     Iterator equality is node identity, and it coincides with equality of
     positions: two positions of one list (end included) are equal exactly
     when their position numbers are.
     */
    lemma PositionsAreDistinct(j: nat, k: nat)
      requires Valid() && j <= |nodes| + 1 && k <= |nodes| + 1
      ensures var p := if j <= |nodes| then PosNode(j) else null;
              var q := if k <= |nodes| then PosNode(k) else null;
              Iterator(p) == Iterator(q) <==> j == k
    {
    }

    /**
     The stored size counts the nodes reachable from the sentinel: any node
     sequence that follows the links from `head.next` to null is `nodes`.
     */
    lemma SizeCountsReachableNodes(s: seq<Node<T>>)
      requires Valid() && Segment(head.next, s, null)
      ensures s == nodes && |s| == size
      ensures size == 0 <==> head.next == null
    {
      SentinelChain(head, nodes);
      ChainUnique(head.next, s, nodes);
    }

    /** `PushFront(v)`: a new first node holding `v`; the size grows by one. */
    method PushFront(value: T)
      requires Valid()
      modifies this, head
      ensures Valid()
      ensures Contents == [value] + old(Contents) && size == old(size) + 1
      ensures fresh(nodes[0]) && nodes == [nodes[0]] + old(nodes)
      ensures Repr == old(Repr) + {nodes[0]}
    {
      Cut(0, 1);
      PositionLinks(0);
      var n := new Node(value, head.next);
      head.next := n;
      size := size + 1;
      RecordInsert(0, n);
    }

    /** `PopFront()`: on a non-empty list, unlinks the first node; the size shrinks by one. */
    method PopFront()
      requires Valid() && Contents != []
      modifies this, head
      ensures Valid()
      ensures Contents == old(Contents)[1..] && size == old(size) - 1
      ensures nodes == old(nodes)[1..]
      ensures Repr == old(Repr) - {old(nodes)[0]}
    {
      PositionLinks(0);
      PositionLinks(1);
      Cut(0, 2);
      var temp := head.next.next;
      head.next := temp;
      size := size - 1;
      RecordErase(0);
    }

    /** `Clear()`: unlinks every node; the list is empty and `begin() == end()`. */
    method Clear()
      requires Valid()
      modifies this, head
      ensures Valid()
      ensures Contents == [] && nodes == [] && size == 0
      ensures Repr == {this, head}
      ensures Begin() == End()
      ensures old(Contents) == [] ==> Repr == old(Repr) && nodes == old(nodes) && size == old(size)
    {
      ghost var s := nodes;
      SentinelChain(head, s);
      DistinctCons(head, s);
      ghost var k := 0;
      while head.next != null
        invariant k <= |s| && head.next == At(s, k, null)
        invariant head !in s && Segment(At(s, 0, null), s, null)
        decreases |s| - k
      {
        head.next := head.next.next;
        k := k + 1;
      }
      size := 0;
      nodes := [];
      Contents := [];
      Repr := {this, head};
    }

    /**
     `InsertAfter(pos, v)`: a new node holding `v` right after `pos` (before-begin
     included); every other element keeps its place and order. Returns the new node.
     */
    method InsertAfter(pos: Iterator<T>, value: T) returns (it: Iterator<T>)
      requires Valid() && IsPosition(pos.node)
      modifies this, pos.node
      ensures Valid()
      ensures var k := old(Offset(pos.node));
              && Contents == old(Contents[..k]) + [value] + old(Contents[k..])
              && nodes == old(nodes[..k]) + [nodes[k]] + old(nodes[k..])
              && it.node == nodes[k]
      ensures pos.node == head ==> Contents == [value] + old(Contents)
      ensures size == old(size) + 1
      ensures it.node != null && fresh(it.node) && it.node.value == value
      ensures Repr == old(Repr) + {it.node}
    {
      ghost var k := Offset(pos.node);
      Cut(k, k + 1);
      PositionLinks(k);
      var n := new Node(value, pos.node.next);
      pos.node.next := n;
      size := size + 1;
      it := Iterator(n);
      RecordInsert(k, n);
    }

    /**
     `EraseAfter(pos)`: unlinks exactly the successor of `pos`, which must
     exist; returns the node that now follows `pos` (end if none).
     */
    method EraseAfter(pos: Iterator<T>) returns (it: Iterator<T>)
      requires Valid() && IsPosition(pos.node) && pos.node.next != null
      modifies this, pos.node
      ensures Valid()
      ensures var k := old(Offset(pos.node));
              && k < old(|nodes|)
              && Contents == old(Contents[..k]) + old(Contents[k + 1..])
              && nodes == old(nodes[..k]) + old(nodes[k + 1..])
              && it.node == Succ(k)
              && Repr == old(Repr) - {old(nodes[k])}
      ensures pos.node == head ==> Contents == old(Contents)[1..]
      ensures size == old(size) - 1
      ensures it.node == pos.node.next
    {
      ghost var k := Offset(pos.node);
      PositionLinks(k);
      PositionLinks(k + 1);
      Cut(k, k + 2);
      var next := pos.node.next.next;
      pos.node.next := next;
      size := size - 1;
      it := Iterator(next);
      RecordErase(k);
    }

    /**
     `swap(other)`: exchanges the two node chains and sizes; no node is
     created, copied or destroyed.
     */
    method Swap(other: SingleLinkedList<T>)
      requires Valid() && other.Valid()
      requires other == this || Repr !! other.Repr
      modifies this, head, other, other.head
      ensures Valid() && other.Valid()
      ensures Contents == old(other.Contents) && other.Contents == old(Contents)
      ensures nodes == old(other.nodes) && other.nodes == old(nodes)
      ensures size == old(other.size) && other.size == old(size)
      ensures Repr - {this, head} == old(other.Repr) - {other, other.head}
      ensures other.Repr - {other, other.head} == old(Repr) - {this, head}
    {
      ghost var mine, theirs := nodes, other.nodes;
      ghost var mineValues, theirValues := Contents, other.Contents;
      SentinelChain(head, mine);
      SentinelChain(other.head, theirs);
      DistinctCons(head, mine);
      DistinctCons(other.head, theirs);
      head.next, other.head.next := other.head.next, head.next;
      size, other.size := other.size, size;
      SentinelChain(head, theirs);
      DistinctCons(head, theirs);
      Rechain(theirs, theirValues);
      SentinelChain(other.head, mine);
      DistinctCons(other.head, mine);
      other.Rechain(mine, mineValues);
    }

    /**
     `operator=(rhs)`: copy-and-swap. This list ends with the contents of
     `rhs` in nodes of its own; assigning a list to itself changes nothing.
     */
    method CopyAssign(rhs: SingleLinkedList<T>)
      requires Valid() && rhs.Valid()
      requires rhs == this || Repr !! rhs.Repr
      modifies Repr
      ensures Valid()
      ensures Contents == old(rhs.Contents)
      ensures rhs == this ==> nodes == old(nodes) && Repr == old(Repr)
      ensures rhs != this ==> fresh(Repr - {this, head}) && Repr !! rhs.Repr
      ensures rhs != this ==> rhs.Valid() && rhs.Contents == old(rhs.Contents)
    {
      if rhs != this {
        var temp := new SingleLinkedList.Copy(rhs);
        Swap(temp);
      }
    }

    /**
     `Assign` over an initializer list: push every value to the front of a
     temporary (giving the reverse), push that temporary's values to the front
     of a second one (reversing again), then swap the result in.
     */
    method Assign(values: seq<T>)
      requires Valid()
      modifies Repr
      ensures Valid() && fresh(Repr - {this, head})
      ensures Contents == values
    {
      var reversed := ReversedValues(values);
      var tmp := ReversedCopy(reversed);
      ReverseInvolution(values);
      Swap(tmp);
    }

    /** `Assign` over another list's iterators: the same two passes, reading `other`. */
    method AssignFrom(other: SingleLinkedList<T>)
      requires Valid() && other.Valid() && Repr !! other.Repr
      modifies Repr
      ensures Valid() && fresh(Repr - {this, head})
      ensures Contents == old(other.Contents)
    {
      var reversed := ReversedCopy(other);
      var tmp := ReversedCopy(reversed);
      ReverseInvolution(other.Contents);
      Swap(tmp);
    }
  }

  /** A fresh list filled by one pass of `Assign` over `values`: the values reversed. */
  method ReversedValues<T(0)>(values: seq<T>) returns (r: SingleLinkedList<T>)
    ensures r.Valid() && fresh(r.Repr)
    ensures r.Contents == Reverse(values)
  {
    r := new SingleLinkedList<T>();
    for i := 0 to |values|
      invariant r.Valid() && fresh(r.Repr)
      invariant r.Contents == Reverse(values[..i])
    {
      r.PushFront(values[i]);
      assert r.Contents == [values[i]] + Reverse(values[..i]);
      ReversePrefixStep(values, i);
    }
    assert values[..|values|] == values;
  }

  /** A fresh list filled by one pass of `Assign` over `from`: its contents reversed. */
  method ReversedCopy<T(0)>(from: SingleLinkedList<T>) returns (r: SingleLinkedList<T>)
    requires from.Valid()
    ensures r.Valid() && fresh(r.Repr)
    ensures r.Contents == Reverse(from.Contents)
  {
    r := new SingleLinkedList<T>();
    PushEachFront(from, r);
    assert r.Contents == Reverse(from.Contents) + [];
  }

  /**
   One pass of `Assign`: walks `from` with an iterator from `begin()` to
   `end()` and pushes each value to the front of `into`, so `into` gains the
   reverse of `from`'s contents in front of what it held.
   */
  method PushEachFront<T(0)>(from: SingleLinkedList<T>, into: SingleLinkedList<T>)
    requires from.Valid() && into.Valid() && from.Repr !! into.Repr
    modifies into, into.head
    ensures into.Valid() && fresh(into.Repr - old(into.Repr))
    ensures into.Contents == Reverse(from.Contents) + old(into.Contents)
  {
    var it := from.Begin();
    ghost var k := 0;
    while it != from.End()
      invariant from.Valid() && from != into
      invariant k <= |from.nodes| && it.node == from.Succ(k)
      invariant into.Valid() && fresh(into.Repr - old(into.Repr))
      invariant from.Repr !! into.Repr
      invariant into.Contents == Reverse(from.Contents[..k]) + old(into.Contents)
      decreases |from.nodes| - k
    {
      from.NextIsNextPosition(k);
      from.NextIsNextPosition(k + 1);
      var v := it.Deref();
      ghost var before := into.Contents;
      into.PushFront(v);
      assert into.Contents == [from.Contents[k]] + before;
      ReversePrefixStep(from.Contents, k);
      ConsAppend(from.Contents[k], Reverse(from.Contents[..k]), old(into.Contents));
      it := it.Next();
      k := k + 1;
    }
    assert from.Contents[..k] == from.Contents;
  }

  /** The free `swap(lhs, rhs)`: the member `Swap`. */
  method Swap<T(0)>(lhs: SingleLinkedList<T>, rhs: SingleLinkedList<T>)
    requires lhs.Valid() && rhs.Valid()
    requires lhs == rhs || lhs.Repr !! rhs.Repr
    modifies lhs, lhs.head, rhs, rhs.head
    ensures lhs.Valid() && rhs.Valid()
    ensures lhs.Contents == old(rhs.Contents) && rhs.Contents == old(lhs.Contents)
    ensures lhs.size == old(rhs.size) && rhs.size == old(lhs.size)
    ensures lhs.nodes == old(rhs.nodes) && rhs.nodes == old(lhs.nodes)
    ensures lhs.Repr - {lhs, lhs.head} == old(rhs.Repr) - {rhs, rhs.head}
    ensures rhs.Repr - {rhs, rhs.head} == old(lhs.Repr) - {lhs, lhs.head}
    ensures lhs == rhs || lhs.Repr !! rhs.Repr
  {
    lhs.Swap(rhs);
  }
}
