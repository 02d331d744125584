/** `sjtu::list<int>`: a doubly-linked list whose data nodes lie between two
    permanent sentinel nodes, with a stored element count, and iterators
    that pair a node with the list that issued them. */
module SjtuList {
  import opened Sequences
  import opened MergeSpec
  import opened UniqueSpec
  import opened ReverseSpec
  import opened Algorithm

  datatype Option<T> = None | Some(value: T)

  /** The two exceptions the list throws: `invalid_iterator` and `container_is_empty`. */
  datatype Error = InvalidIterator | ContainerIsEmpty

  datatype Result<T> = Ok(value: T) | Err(error: Error)

  /** A chain node. `data` is `None` (a null pointer) exactly for the sentinels. */
  class Node {
    var data: Option<int>
    var prev: Node?
    var next: Node?

    constructor Sentinel()
      ensures data == None && prev == null && next == null
    {
      data := None;
      prev := null;
      next := null;
    }

    constructor (value: int)
      ensures data == Some(value) && prev == null && next == null
    {
      data := Some(value);
      prev := null;
      next := null;
    }
  }

  /** Consecutive nodes point at each other both ways. */
  ghost predicate Linked(ns: seq<Node>)
    reads ns
  {
    forall i :: 0 <= i < |ns| - 1 ==> ns[i].next == ns[i + 1] && ns[i + 1].prev == ns[i]
  }

  /** The value every data node among `ns` holds now, as a key function. */
  ghost function ValueOf(ns: seq<Node>): (key: Node -> int)
    reads ns
    ensures forall n :: n in ns && n.data.Some? ==> n.data == Some(key(n))
  {
    var m := map n | n in ns && n.data.Some? :: n.data.value;
    n => if n in m then m[n] else 0
  }

  /** `list::iterator`: a node and the list it claims to belong to. */
  datatype Iterator = Iterator(ptr: Node?, container: List?)

  /** `list::const_iterator`: the same pair, read-only. */
  datatype ConstIterator = ConstIterator(ptr: Node?, container: List?)

  /** The one-way conversion from `iterator` to `const_iterator`. */
  function ToConst(it: Iterator): (r: ConstIterator)
    ensures r.ptr == it.ptr && r.container == it.container
  {
    ConstIterator(it.ptr, it.container)
  }

  /** What `*it` and `it->` yield for an iterator at `p`. */
  function Read(p: Node?): (r: Result<int>)
    reads p
    ensures r.Err? <==> p == null || p.data.None?
    ensures r.Err? ==> r.error == InvalidIterator
    ensures r.Ok? ==> p.data == Some(r.value)
  {
    if p == null || p.data.None? then Err(InvalidIterator) else Ok(p.data.value)
  }

  function Deref(it: Iterator): (r: Result<int>)
    reads it.ptr
    ensures r.Err? <==> it.ptr == null || it.ptr.data.None?
    ensures r.Err? ==> r.error == InvalidIterator
    ensures r.Ok? ==> it.ptr.data == Some(r.value)
  {
    Read(it.ptr)
  }

  function ConstDeref(it: ConstIterator): (r: Result<int>)
    reads it.ptr
    ensures r.Err? <==> it.ptr == null || it.ptr.data.None?
    ensures r.Err? ==> r.error == InvalidIterator
    ensures r.Ok? ==> it.ptr.data == Some(r.value)
  {
    Read(it.ptr)
  }

  /** `++it`; stepping a null iterator is undefined, so it is excluded. */
  function Next(it: Iterator): (r: Iterator)
    requires it.ptr != null
    reads it.ptr
    ensures r.ptr == it.ptr.next && r.container == it.container
  {
    Iterator(it.ptr.next, it.container)
  }

  /** `--it`. */
  function Prev(it: Iterator): (r: Iterator)
    requires it.ptr != null
    reads it.ptr
    ensures r.ptr == it.ptr.prev && r.container == it.container
  {
    Iterator(it.ptr.prev, it.container)
  }

  function ConstNext(it: ConstIterator): (r: ConstIterator)
    requires it.ptr != null
    reads it.ptr
    ensures r.ptr == it.ptr.next && r.container == it.container
  {
    ConstIterator(it.ptr.next, it.container)
  }

  function ConstPrev(it: ConstIterator): (r: ConstIterator)
    requires it.ptr != null
    reads it.ptr
    ensures r.ptr == it.ptr.prev && r.container == it.container
  {
    ConstIterator(it.ptr.prev, it.container)
  }

  /** `operator==` between iterators of either kind compares nodes only. */
  predicate Equal(a: Iterator, b: Iterator): (r: bool)
    ensures r <==> a.ptr == b.ptr
  {
    a.ptr == b.ptr
  }

  predicate EqualConst(a: Iterator, b: ConstIterator): (r: bool)
    ensures r <==> a.ptr == b.ptr
  {
    a.ptr == b.ptr
  }

  predicate ConstEqual(a: ConstIterator, b: ConstIterator): (r: bool)
    ensures r <==> a.ptr == b.ptr
  {
    a.ptr == b.ptr
  }

  /** Converting to `const_iterator` changes neither what is read, nor
      where a step leads, nor what compares equal. */
  lemma ToConstAgrees(it: Iterator, other: Iterator)
    ensures ConstDeref(ToConst(it)) == Deref(it)
    ensures it.ptr != null ==> ConstNext(ToConst(it)) == ToConst(Next(it))
    ensures it.ptr != null ==> ConstPrev(ToConst(it)) == ToConst(Prev(it))
    ensures EqualConst(other, ToConst(it)) == Equal(other, it)
    ensures ConstEqual(ToConst(other), ToConst(it)) == Equal(other, it)
  {
  }

  /** A list none of whose nodes changed is still well formed. */
  twostate lemma StaysValid(l: List)
    requires old(l.Valid()) && unchanged(l)
    requires forall n :: n in old(l.nodes) ==> unchanged(n)
    ensures l.Valid()
  {
    var ns := l.nodes;
    forall j | 0 <= j < |ns|
      ensures ns[j].next == old(ns[j].next) && ns[j].prev == old(ns[j].prev) && ns[j].data == old(ns[j].data)
    {
      assert ns[j] in old(l.nodes);
    }
  }

  /** Once `cur` is linked in between `ns[i - 1]` and `ns[i]`, and the rest
      of `ns` is still linked as before, the longer chain is well linked,
      free of repeats and holds the old values with `cur`'s in between. */
  lemma SplicedIn(ns: seq<Node>, c: seq<int>, i: int, cur: Node, v: int, r: seq<Node>, d: seq<int>)
    requires 0 < i < |ns| && |c| == |ns| - 2 && Distinct(ns) && cur !in ns && cur.data == Some(v)
    requires r == InsertAt(ns, i, cur) && d == InsertAt(c, i - 1, v)
    requires forall j :: 0 <= j < |ns| - 1 && j != i - 1 ==> ns[j].next == ns[j + 1] && ns[j + 1].prev == ns[j]
    requires forall k :: 0 <= k < |c| ==> ns[k + 1].data == Some(c[k])
    requires cur.prev == ns[i - 1] && cur.next == ns[i] && ns[i - 1].next == cur && ns[i].prev == cur
    ensures Linked(r) && Distinct(r) && |d| == |r| - 2
    ensures forall k :: 0 <= k < |d| ==> r[k + 1].data == Some(d[k])
  {
    InsertAtIndex(ns, i, cur);
    InsertAtIndex(c, i - 1, v);
    InsertAtDistinct(ns, i, cur);
    forall j | 0 <= j < |r| - 1 ensures r[j].next == r[j + 1] && r[j + 1].prev == r[j] {
      if j < i - 1 {
        assert r[j] == ns[j] && r[j + 1] == ns[j + 1];
      } else if j > i {
        assert r[j] == ns[j - 1] && r[j + 1] == ns[j];
      }
    }
  }

  /** Once `ns[i - 1]` and `ns[i + 1]` are linked to each other, and the
      rest of `ns` is still linked as before, the chain without `ns[i]` is
      well linked, free of repeats and holds the old values but `c[i - 1]`. */
  lemma SplicedOut(ns: seq<Node>, c: seq<int>, i: int, r: seq<Node>, d: seq<int>)
    requires 0 < i < |ns| - 1 && |c| == |ns| - 2 && Distinct(ns)
    requires r == RemoveAt(ns, i) && d == RemoveAt(c, i - 1)
    requires forall j :: 0 <= j < |ns| - 1 && j != i - 1 && j != i ==> ns[j].next == ns[j + 1] && ns[j + 1].prev == ns[j]
    requires forall k :: 0 <= k < |c| ==> ns[k + 1].data == Some(c[k])
    requires ns[i - 1].next == ns[i + 1] && ns[i + 1].prev == ns[i - 1]
    ensures Linked(r) && Distinct(r) && |d| == |r| - 2
    ensures forall k :: 0 <= k < |d| ==> r[k + 1].data == Some(d[k])
  {
    RemoveAtIndex(ns, i);
    RemoveAtIndex(c, i - 1);
    RemoveAtKeepsDistinct(ns, i);
    forall j | 0 <= j < |r| - 1 ensures r[j].next == r[j + 1] && r[j + 1].prev == r[j] {
      if j < i - 1 {
        assert r[j] == ns[j] && r[j + 1] == ns[j + 1];
      } else if j > i - 1 {
        assert r[j] == ns[j + 1] && r[j + 1] == ns[j + 2];
      }
    }
  }

  /** The links `reverse()` leaves behind chain the same nodes in the
      opposite order, sentinels kept at their ends. */
  lemma ReversedChain(ns: seq<Node>, c: seq<int>)
    requires |ns| >= 4 && Distinct(ns) && |c| == |ns| - 2
    requires forall j :: 1 <= j < |ns| - 1 ==> ns[j].data == Some(c[j - 1])
    requires ns[0].next == ns[|ns| - 2] && ns[|ns| - 2].prev == ns[0]
    requires ns[1].next == ns[|ns| - 1] && ns[|ns| - 1].prev == ns[1]
    requires forall j :: 2 <= j < |ns| - 1 ==> ns[j].next == ns[j - 1]
    requires forall j :: 1 <= j < |ns| - 2 ==> ns[j].prev == ns[j + 1]
    ensures var r := [ns[0]] + Reversed(ns[1..|ns| - 1]) + [ns[|ns| - 1]];
      && |r| == |ns| && Linked(r) && Distinct(r)
      && (forall i :: 0 < i < |ns| - 1 ==> r[i] == ns[|ns| - 1 - i])
      && |Reversed(c)| == |c|
      && forall i :: 0 <= i < |c| ==> r[i + 1].data == Some(Reversed(c)[i])
  {
    ReversedAt(c);
    var n := |ns|;
    var mid := ns[1..n - 1];
    ReversedAt(mid);
    var r := [ns[0]] + Reversed(mid) + [ns[n - 1]];
    assert forall i :: 0 < i < n - 1 ==> r[i] == ns[n - 1 - i];
    assert r[0] == ns[0] && r[n - 1] == ns[n - 1];
    forall i | 0 <= i < n - 1
      ensures r[i].next == r[i + 1] && r[i + 1].prev == r[i]
    {
      if i == 0 {
        assert r[1] == ns[n - 2];
      } else if i == n - 2 {
        assert r[i] == ns[1];
      } else {
        assert r[i] == ns[n - 1 - i] && r[i + 1] == ns[n - 2 - i];
      }
    }
    forall i, j | 0 <= i < j < n
      ensures r[i] != r[j]
    {
      var a := if i == 0 then 0 else if i == n - 1 then n - 1 else n - 1 - i;
      var b := if j == 0 then 0 else if j == n - 1 then n - 1 else n - 1 - j;
      assert r[i] == ns[a] && r[j] == ns[b] && a != b;
    }
  }

  class List {
    var head: Node
    var tail: Node
    var count: nat
    /** The whole chain: `head`, the data nodes in order, `tail`. */
    ghost var nodes: seq<Node>
    /** The elements, front to back. */
    ghost var Contents: seq<int>

    ghost predicate Valid()
      reads this, nodes
    {
      && |nodes| >= 2 && nodes[0] == head && nodes[|nodes| - 1] == tail
      && Distinct(nodes)
      && Linked(nodes)
      && head.prev == null && tail.next == null
      && head.data == None && tail.data == None
      && |Contents| == |nodes| - 2 && count == |Contents|
      && (forall i :: 0 <= i < |Contents| ==> nodes[i + 1].data == Some(Contents[i]))
    }

    /** The two lists share no node. */
    ghost predicate Disjoint(other: List)
      reads this, other
    {
      forall n :: n in nodes ==> n !in other.nodes
    }

    /** Where `n` sits in the chain. */
    ghost function IndexOf(n: Node): (i: nat)
      requires Valid() && n in nodes
      reads this, nodes
      ensures i < |nodes| && nodes[i] == n
    {
      var i :| 0 <= i < |nodes| && nodes[i] == n; i
    }

    /** A new list: the two sentinels linked to each other and no element. */
    constructor ()
      ensures Valid() && Contents == [] && fresh(head) && fresh(tail)
      ensures head.next == tail && tail.prev == head
    {
      var h := new Node.Sentinel();
      var t := new Node.Sentinel();
      h.next := t;
      t.prev := h;
      head, tail, count := h, t, 0;
      nodes, Contents := [h, t], [];
    }

    /** The copy constructor: fresh sentinels, then every element of `other` appended. */
    constructor Copy(other: List)
      requires other.Valid()
      ensures Valid() && Contents == other.Contents
      ensures forall n :: n in nodes ==> fresh(n)
      ensures Disjoint(other)
    {
      var h := new Node.Sentinel();
      var t := new Node.Sentinel();
      h.next := t;
      t.prev := h;
      head, tail, count := h, t, 0;
      nodes, Contents := [h, t], [];
      new;
      AppendAll(other);
    }

    /** `operator=`: self-assignment changes nothing; otherwise `clear()` and
        then every element of `other` appended. */
    method Assign(other: List)
      requires Valid() && other.Valid()
      requires this != other ==> Disjoint(other)
      modifies this, nodes
      ensures Valid() && other.Valid() && head == old(head) && tail == old(tail)
      ensures Contents == old(other.Contents)
      ensures other.Contents == old(other.Contents) && other.nodes == old(other.nodes)
      ensures this == other ==> nodes == old(nodes)
      ensures this != other ==> Disjoint(other) && forall j :: 0 < j < |nodes| - 1 ==> fresh(nodes[j])
    {
      if this == other {
        return;
      }
      assert forall n :: n in other.nodes ==> n !in nodes;
      Clear();
      assert forall n :: n in other.nodes ==> unchanged(n);
      StaysValid(other);
      AppendAll(other);
    }

    /** The loop shared by the copy constructor and `operator=`: `push_back`
        of every element of `other`, front to back. */
    method AppendAll(other: List)
      requires Valid() && other.Valid() && Disjoint(other)
      modifies this, nodes
      ensures Valid() && head == old(head) && tail == old(tail)
      ensures Contents == old(Contents) + other.Contents
      ensures unchanged(other) && other.Valid() && Disjoint(other)
      ensures |nodes| >= old(|nodes|) && nodes[..old(|nodes|) - 1] == old(nodes[..|nodes| - 1])
      ensures forall j :: old(|nodes|) - 1 <= j < |nodes| - 1 ==> fresh(nodes[j])
    {
      ghost var n0 := nodes;
      var cur := other.head.next;
      ghost var k := 1;
      while cur != other.tail
        invariant Valid() && head == old(head) && tail == old(tail)
        invariant unchanged(other)
        invariant other.Valid()
        invariant Disjoint(other)
        invariant 1 <= k < |other.nodes| && cur == other.nodes[k]
        invariant Contents == old(Contents) + other.Contents[..k - 1]
        invariant |nodes| >= |n0| && nodes[..|n0| - 1] == n0[..|n0| - 1]
        invariant forall j :: |n0| - 1 <= j < |nodes| - 1 ==> fresh(nodes[j])
        decreases |other.nodes| - k
      {
        cur := AppendStep(other, cur, k);
        k := k + 1;
        assert other.Contents[..k - 1] == other.Contents[..k - 2] + [other.Contents[k - 2]];
      }
      assert other.Contents[..k - 1] == other.Contents;
    }

    /** One turn of the copying loop: `push_back` of the value in `other`'s
        node at position `k`, and the scan moves to the next node. */
    method AppendStep(other: List, cur: Node, ghost k: int) returns (cur': Node?)
      requires Valid() && other.Valid() && Disjoint(other)
      requires 1 <= k < |other.nodes| - 1 && cur == other.nodes[k]
      modifies this, nodes
      ensures Valid() && head == old(head) && tail == old(tail)
      ensures unchanged(other) && other.Valid() && Disjoint(other)
      ensures cur' == other.nodes[k + 1]
      ensures Contents == old(Contents) + [other.Contents[k - 1]]
      ensures |nodes| == old(|nodes|) + 1 && nodes[..old(|nodes|) - 1] == old(nodes[..|nodes| - 1])
      ensures fresh(nodes[|nodes| - 2])
    {
      assert other.nodes[k].data == Some(other.Contents[k - 1]);
      assert head in nodes && this != other;
      assert forall n :: n in other.nodes ==> n !in nodes;
      ghost var ns := nodes;
      label before:
      PushBack(cur.data.value);
      assert forall n :: n in other.nodes ==> unchanged@before(n);
      StaysValid@before(other);
      cur' := cur.next;
      InsertAtIndex(ns, |ns| - 1, nodes[|nodes| - 2]);
      assert nodes[..|ns| - 1] == ns[..|ns| - 1];
    }

    /** The protected `insert(pos, cur)`: splice `cur` in just before `pos`. */
    method InsertNode(pos: Node, cur: Node, ghost i: int) returns (r: Node)
      requires Valid()
      requires 0 < i < |nodes| && nodes[i] == pos
      requires cur !in nodes && cur.data.Some?
      modifies this, nodes[i - 1], pos, cur
      ensures r == cur && Valid()
      ensures head == old(head) && tail == old(tail)
      ensures cur.data == old(cur.data)
      ensures nodes == InsertAt(old(nodes), i, cur)
      ensures Contents == InsertAt(old(Contents), i - 1, cur.data.value)
    {
      ghost var ns, c := nodes, Contents;
      assert pos.prev == ns[i - 1];
      cur.prev := pos.prev;
      cur.next := pos;
      pos.prev.next := cur;
      pos.prev := cur;
      count := count + 1;
      nodes := InsertAt(nodes, i, cur);
      Contents := InsertAt(Contents, i - 1, cur.data.value);
      SplicedIn(ns, c, i, cur, cur.data.value, nodes, Contents);
      r := cur;
    }

    /** The protected `erase(pos)`: unlink the data node `pos`. */
    method EraseNode(pos: Node, ghost i: int) returns (r: Node)
      requires Valid()
      requires 0 < i < |nodes| - 1 && nodes[i] == pos
      modifies this, nodes[i - 1], nodes[i + 1]
      ensures r == pos && Valid()
      ensures head == old(head) && tail == old(tail)
      ensures nodes == RemoveAt(old(nodes), i)
      ensures Contents == RemoveAt(old(Contents), i - 1)
    {
      ghost var ns, c := nodes, Contents;
      assert pos.prev == ns[i - 1] && pos.next == ns[i + 1];
      pos.prev.next := pos.next;
      pos.next.prev := pos.prev;
      count := count - 1;
      nodes := RemoveAt(nodes, i);
      Contents := RemoveAt(Contents, i - 1);
      SplicedOut(ns, c, i, nodes, Contents);
      r := pos;
    }

    /** `clear()`: unlink the first data node until none is left. */
    method Clear()
      requires Valid()
      modifies this, nodes
      ensures Valid() && head == old(head) && tail == old(tail)
      ensures Contents == [] && nodes == [head, tail] && head.next == tail
    {
      while head.next != tail
        invariant Valid() && head == old(head) && tail == old(tail)
        invariant forall n :: n in nodes ==> n in old(nodes)
        decreases |nodes|
      {
        assert head.next == nodes[1] && |nodes| > 2;
        assert nodes[0] in nodes && nodes[2] in nodes;
        var temp := head.next;
        temp := EraseNode(temp, 1);
      }
      assert nodes[1] == nodes[|nodes| - 1];
      assert nodes == [head, tail];
    }

    /** `insert(pos, value)`: a foreign iterator is refused; otherwise a new
        node holding `value` goes just before `pos` (which may be `end()`). */
    method Insert(pos: Iterator, value: int) returns (r: Result<Iterator>)
      requires Valid()
      requires pos.container == this ==> pos.ptr != null && pos.ptr in nodes && pos.ptr != head
      modifies this, nodes
      ensures Valid() && head == old(head) && tail == old(tail)
      ensures pos.container != this ==> r == Err(InvalidIterator) && nodes == old(nodes) && Contents == old(Contents)
      ensures pos.container == this ==>
        var i := old(IndexOf(pos.ptr));
        && |nodes| == old(|nodes|) + 1
        && r.Ok? && r.value == Iterator(nodes[i], this) && fresh(nodes[i])
        && nodes == InsertAt(old(nodes), i, nodes[i])
        && Contents == InsertAt(old(Contents), i - 1, value)
        && Deref(r.value) == Ok(value)
      ensures pos.container == this && pos.ptr == tail ==> Contents == old(Contents) + [value]
    {
      if pos.container != this {
        return Err(InvalidIterator);
      }
      var newNode := new Node(value);
      ghost var i := IndexOf(pos.ptr);
      newNode := InsertNode(pos.ptr, newNode, i);
      r := Ok(Iterator(newNode, this));
    }

    /** `erase(pos)`: an empty list is refused first, then a foreign or
        sentinel iterator; otherwise the node at `pos` is unlinked and the
        iterator to the node after it is returned. */
    method Erase(pos: Iterator) returns (r: Result<Iterator>)
      requires Valid()
      requires count > 0 && pos.container == this && pos.ptr != head && pos.ptr != tail
        ==> pos.ptr != null && pos.ptr in nodes
      modifies this, nodes
      ensures Valid() && head == old(head) && tail == old(tail)
      ensures r.Err? ==> nodes == old(nodes) && Contents == old(Contents)
      ensures old(count) == 0 ==> r == Err(ContainerIsEmpty)
      ensures old(count) > 0 && (pos.container != this || pos.ptr == old(head) || pos.ptr == old(tail))
        ==> r == Err(InvalidIterator)
      ensures old(count) > 0 && pos.container == this && pos.ptr != old(head) && pos.ptr != old(tail) ==>
        var i := old(IndexOf(pos.ptr));
        && nodes == RemoveAt(old(nodes), i)
        && Contents == RemoveAt(old(Contents), i - 1)
        && r == Ok(Iterator(nodes[i], this))
        && (Equal(r.value, End()) <==> i == old(|nodes|) - 2)
    {
      if count == 0 {
        return Err(ContainerIsEmpty);
      }
      if pos.container != this || pos.ptr == head || pos.ptr == tail {
        return Err(InvalidIterator);
      }
      var nextNode := pos.ptr.next;
      ghost var i := IndexOf(pos.ptr);
      assert nextNode == nodes[i + 1];
      var _ := EraseNode(pos.ptr, i);
      r := Ok(Iterator(nextNode, this));
    }

    /** `push_back(value)`: insert before `tail`. */
    method PushBack(value: int)
      requires Valid()
      modifies this, nodes
      ensures Valid() && head == old(head) && tail == old(tail)
      ensures Contents == old(Contents) + [value]
      ensures |nodes| == old(|nodes|) + 1 && fresh(nodes[|nodes| - 2])
      ensures nodes == InsertAt(old(nodes), old(|nodes|) - 1, nodes[|nodes| - 2])
    {
      var newNode := new Node(value);
      newNode := InsertNode(tail, newNode, |nodes| - 1);
    }

    /** `push_front(value)`: insert before the first data node. */
    method PushFront(value: int)
      requires Valid()
      modifies this, nodes
      ensures Valid() && head == old(head) && tail == old(tail)
      ensures Contents == [value] + old(Contents)
      ensures nodes == InsertAt(old(nodes), 1, nodes[1]) && fresh(nodes[1])
    {
      var newNode := new Node(value);
      assert head.next == nodes[1];
      newNode := InsertNode(head.next, newNode, 1);
    }

    /** `pop_back()`: refused on an empty list, otherwise unlinks the last data node. */
    method PopBack() returns (r: Result<()>)
      requires Valid()
      modifies this, nodes
      ensures Valid() && head == old(head) && tail == old(tail)
      ensures old(count) == 0 ==> r == Err(ContainerIsEmpty) && nodes == old(nodes) && Contents == old(Contents)
      ensures old(count) > 0 ==>
        && r == Ok(())
        && nodes == RemoveAt(old(nodes), old(|nodes|) - 2)
        && Contents == old(Contents[..|Contents| - 1])
    {
      if count == 0 {
        return Err(ContainerIsEmpty);
      }
      assert tail.prev == nodes[|nodes| - 2];
      var last := tail.prev;
      last := EraseNode(last, |nodes| - 2);
      r := Ok(());
    }

    /** `pop_front()`: refused on an empty list, otherwise unlinks the first data node. */
    method PopFront() returns (r: Result<()>)
      requires Valid()
      modifies this, nodes
      ensures Valid() && head == old(head) && tail == old(tail)
      ensures old(count) == 0 ==> r == Err(ContainerIsEmpty) && nodes == old(nodes) && Contents == old(Contents)
      ensures old(count) > 0 ==>
        && r == Ok(())
        && nodes == RemoveAt(old(nodes), 1)
        && Contents == old(Contents[1..])
    {
      if count == 0 {
        return Err(ContainerIsEmpty);
      }
      assert head.next == nodes[1];
      var first := head.next;
      first := EraseNode(first, 1);
      r := Ok(());
    }

    /** `sort()`: copy the elements into an array, sort it, and write the
        values back into the same nodes in order. No node is added, removed
        or relinked. */
    method Sort()
      requires Valid()
      modifies this, nodes
      ensures Valid() && head == old(head) && tail == old(tail)
      ensures nodes == old(nodes)
      ensures Contents == SortSeq(old(Contents))
    {
      if count <= 1 {
        assert Contents == [] || Contents == [Contents[0]];
        return;
      }
      var arr := ToArray();
      SortArray(arr);
      WriteBack(arr);
    }

    /** The first loop of `sort()`: the elements, front to back, in a new array. */
    method ToArray() returns (arr: array<int>)
      requires Valid()
      ensures fresh(arr) && arr[..] == Contents
    {
      arr := new int[count];
      var idx := 0;
      var cur := head.next;
      while cur != tail
        invariant 0 <= idx <= count && cur == nodes[idx + 1]
        invariant forall j :: 0 <= j < idx ==> arr[j] == Contents[j]
        decreases count - idx
      {
        assert nodes[idx + 1].data == Some(Contents[idx]);
        arr[idx] := cur.data.value;
        idx := idx + 1;
        cur := cur.next;
      }
    }

    /** The second loop of `sort()`: the array's values stored into the data
        nodes in order; the chain itself stays as it is. */
    method WriteBack(arr: array<int>)
      requires Valid() && arr.Length == count
      modifies this, nodes
      ensures Valid() && head == old(head) && tail == old(tail)
      ensures nodes == old(nodes) && Contents == arr[..]
    {
      var idx := 0;
      var cur := head.next;
      while cur != tail
        modifies nodes
        invariant 0 <= idx <= count && cur == nodes[idx + 1]
        invariant Linked(nodes) && head.prev == null && tail.next == null
        invariant head.data == None && tail.data == None
        invariant forall j :: 0 <= j < idx ==> nodes[j + 1].data == Some(arr[j])
        decreases count - idx
      {
        cur.data := Some(arr[idx]);
        idx := idx + 1;
        cur := cur.next;
      }
      Contents := arr[..];
    }

    /** `reverse()`: swap `prev` and `next` of every data node, then swap the
        sentinels' inner links. The same nodes stay, in the opposite order. */
    method Reverse()
      requires Valid()
      modifies this, nodes
      ensures Valid() && head == old(head) && tail == old(tail)
      ensures nodes == [head] + Reversed(old(nodes[1..|nodes| - 1])) + [tail]
      ensures Contents == Reversed(old(Contents))
    {
      if count <= 1 {
        ReversedShort(nodes[1..|nodes| - 1]);
        ReversedShort(Contents);
        assert nodes == [head] + nodes[1..|nodes| - 1] + [tail];
        return;
      }
      ghost var ns := nodes;
      SwapLinks();
      ReversedChain(ns, Contents);
      nodes := [head] + Reversed(ns[1..|ns| - 1]) + [tail];
      Contents := Reversed(Contents);
    }

    /** The `while (cur != tail)` loop of `reverse()` (list.hpp:526-532):
        walking from the first data node to `tail`, swap each node's `prev`
        and `next`; one turn is `SwapStep`. The sentinels are not touched. */
    method SwapEach()
      requires SwapScan(nodes, Contents, 1) && nodes[0] == head && nodes[|nodes| - 1] == tail
      modifies nodes[1..|nodes| - 1]
      ensures SwapScan(nodes, Contents, |nodes| - 1)
    {
      ghost var ns := nodes;
      var cur := head.next;
      ghost var k := 1;
      while cur != tail
        invariant SwapScan(ns, Contents, k) && cur == ns[k]
        decreases |ns| - k
      {
        cur := SwapStep(ns, Contents, cur, k);
        k := k + 1;
      }
    }

    /** Before the walk of `reverse()` no link is swapped yet. */
    lemma SwapStart()
      requires Valid()
      ensures SwapScan(nodes, Contents, 1)
    {
    }

    /** Where the walk of `reverse()` stands: the data nodes before
        position `k` have their links swapped, the rest not yet; no node
        changes its value and the sentinels are not touched. */
    static ghost predicate SwapScan(ns: seq<Node>, c: seq<int>, k: int)
      reads ns
    {
      && |ns| >= 2 && 1 <= k < |ns| && Distinct(ns) && |c| == |ns| - 2
      && ns[0].prev == null && ns[|ns| - 1].next == null && ns[0].data == None && ns[|ns| - 1].data == None
      && ns[0].next == ns[1] && ns[|ns| - 1].prev == ns[|ns| - 2]
      && (forall j :: 1 <= j < k ==> ns[j].next == ns[j - 1] && ns[j].prev == ns[j + 1])
      && (forall j :: k <= j < |ns| - 1 ==> ns[j].next == ns[j + 1] && ns[j].prev == ns[j - 1])
      && (forall j :: 1 <= j < |ns| - 1 ==> ns[j].data == Some(c[j - 1]))
    }

    /** One turn of the walk of `reverse()`: swap `cur`'s two links and
        move on to its old `next`. */
    static method SwapStep(ghost ns: seq<Node>, ghost c: seq<int>, cur: Node, ghost k: int) returns (next: Node?)
      requires SwapScan(ns, c, k) && k < |ns| - 1 && cur == ns[k]
      modifies cur
      ensures SwapScan(ns, c, k + 1) && next == ns[k + 1]
    {
      var temp := cur.next;
      cur.next := cur.prev;
      cur.prev := temp;
      next := temp;
    }

    /** The pointer work of `reverse()`: every data node's `prev` and `next`
        swapped, then the sentinels' inner links swapped and the new end
        nodes pointed back at them. `nodes` is left to the caller. */
    method SwapLinks()
      requires Valid() && count >= 2
      modifies nodes
      ensures var ns, n := nodes, |nodes|;
        && Distinct(ns) && ns[0] == head && ns[n - 1] == tail
        && head.prev == null && tail.next == null && head.data == None && tail.data == None
        && ns[0].next == ns[n - 2] && ns[n - 2].prev == ns[0]
        && ns[1].next == ns[n - 1] && ns[n - 1].prev == ns[1]
        && (forall j :: 2 <= j < n - 1 ==> ns[j].next == ns[j - 1])
        && (forall j :: 1 <= j < n - 2 ==> ns[j].prev == ns[j + 1])
        && (forall j :: 1 <= j < n - 1 ==> ns[j].data == Some(Contents[j - 1]))
    {
      SwapStart();
      SwapEach();
      RelinkEnds(nodes, Contents, head, tail);
    }

    /** The end of `reverse()`: once every data node's links are swapped,
        swap the sentinels' inner links and point the new first and last
        data nodes back at them. */
    static method RelinkEnds(ghost ns: seq<Node>, ghost c: seq<int>, h: Node, t: Node)
      requires SwapScan(ns, c, |ns| - 1) && |ns| >= 4 && h == ns[0] && t == ns[|ns| - 1]
      modifies h, t, ns[1], ns[|ns| - 2]
      ensures var n := |ns|;
        && h.prev == null && t.next == null && h.data == None && t.data == None
        && ns[0].next == ns[n - 2] && ns[n - 2].prev == ns[0]
        && ns[1].next == ns[n - 1] && ns[n - 1].prev == ns[1]
        && (forall j :: 2 <= j < n - 1 ==> ns[j].next == ns[j - 1])
        && (forall j :: 1 <= j < n - 2 ==> ns[j].prev == ns[j + 1])
        && (forall j :: 1 <= j < n - 1 ==> ns[j].data == Some(c[j - 1]))
    {
      ghost var n := |ns|;
      assert ns[1] != h && ns[1] != t && ns[n - 2] != h && ns[n - 2] != t && ns[1] != ns[n - 2] && h != t;
      var temp := h.next;
      h.next := t.prev;
      t.prev := temp;
      h.next.prev := h;
      t.prev.next := t;
      forall j | 2 <= j < n - 1 ensures ns[j].next == ns[j - 1] {
        assert ns[j] != ns[1] && ns[j] != ns[0];
      }
      forall j | 1 <= j < n - 2 ensures ns[j].prev == ns[j + 1] {
        assert ns[j] != ns[n - 2] && ns[j] != ns[n - 1];
      }
    }

    /** `merge(other)`: walk the receiver once; while `other` has a node,
        move its first node in front of the receiver's current node when the
        receiver is used up or that value is strictly smaller, and otherwise
        step on. Nodes are moved, never copied; `other` ends up empty. */
    method Merge(other: List, ghost key: Node -> int)
      requires Valid() && other.Valid()
      requires this != other ==> Disjoint(other)
      requires Keys(nodes[1..|nodes| - 1], key) == Contents
      requires Keys(other.nodes[1..|other.nodes| - 1], key) == other.Contents
      modifies this, nodes, other, other.nodes
      ensures Valid() && other.Valid()
      ensures head == old(head) && tail == old(tail) && other.head == old(other.head) && other.tail == old(other.tail)
      ensures this == other ==> nodes == old(nodes) && Contents == old(Contents)
      ensures this != other ==>
        && nodes[1..|nodes| - 1] == MergeBy(old(nodes[1..|nodes| - 1]), old(other.nodes[1..|other.nodes| - 1]), key)
        && Contents == MergeBy(old(Contents), old(other.Contents), Id)
        && other.nodes == [other.head, other.tail] && other.Contents == []
    {
      if this == other {
        return;
      }
      ghost var a0, b0 := nodes[1..|nodes| - 1], other.nodes[1..|other.nodes| - 1];
      assert Keys(a0, key) == old(Contents) && Keys(b0, key) == old(other.Contents);
      ghost var done: seq<Node> := [];
      ghost var todo, rest := a0, b0;
      KeysInner(nodes, Contents, key);
      KeysInner(other.nodes, other.Contents, key);
      assert nodes == [head] + done + todo + [tail];
      assert other.nodes == [other.head] + rest + [other.tail];
      ghost var last;
      last, done, todo, rest := MergeLoop(other, head.next, other.head.next, done, todo, rest, a0, b0, key);
      DistinctEnds(other.nodes, other.head, rest, other.tail);
      assert other.nodes == [other.head, other.tail] && other.Contents == [];
      assert nodes[0] == head && nodes[|nodes| - 1] == tail;
      MergeScanDone(nodes, Contents, done, todo, a0, b0, key);
    }

    /** The `while (cur2 != other.tail)` loop of `merge` (list.hpp:495-516),
        run from the scan position given until `other` is used up. One turn
        is `MergeStep`. The ghost `done`, `todo` and `rest` are the receiver's
        nodes already final, its nodes from `cur1` on, and `other`'s nodes
        still to be placed. */
    method MergeLoop(other: List, cur1: Node?, cur2: Node?, ghost done: seq<Node>, ghost todo: seq<Node>,
                     ghost rest: seq<Node>, ghost a0: seq<Node>, ghost b0: seq<Node>, ghost key: Node -> int)
        returns (ghost last: Node?, ghost done': seq<Node>, ghost todo': seq<Node>, ghost rest': seq<Node>)
      requires MergeScan(other, cur1, cur2, done, todo, rest, a0, b0, key)
      modifies this, nodes, other, other.nodes
      ensures MergeScan(other, last, other.tail, done', todo', rest', a0, b0, key)
      ensures head == old(head) && tail == old(tail) && other.head == old(other.head) && other.tail == old(other.tail)
    {
      var c1, c2 := cur1, cur2;
      done', todo', rest' := done, todo, rest;
      while c2 != other.tail
        invariant MergeScan(other, c1, c2, done', todo', rest', a0, b0, key)
        invariant head == old(head) && tail == old(tail) && other.head == old(other.head) && other.tail == old(other.tail)
        invariant forall j :: 0 <= j < |nodes| ==> nodes[j] in old(nodes) || nodes[j] in old(other.nodes)
        invariant forall j :: 0 <= j < |other.nodes| ==> other.nodes[j] in old(other.nodes)
        decreases |todo'| + |rest'|
      {
        c1, c2, done', todo', rest' := MergeStep(other, c1, c2, done', todo', rest', a0, b0, key);
      }
      last := c1;
    }

    /** Where the walk of `merge` stands: `done` is the merged prefix, `todo`
        the receiver's nodes not yet passed, `rest` what is left in `other`,
        and `done` followed by the merge of the two remainders is the merge
        of the two original chains `a0` and `b0`. */
    ghost predicate MergeScan(other: List, cur1: Node?, cur2: Node?, done: seq<Node>, todo: seq<Node>,
                              rest: seq<Node>, a0: seq<Node>, b0: seq<Node>, key: Node -> int)
      reads this, nodes, other, other.nodes
    {
      && Valid() && other.Valid() && Disjoint(other)
      && nodes == [head] + done + todo + [tail] && cur1 == nodes[|done| + 1]
      && other.nodes == [other.head] + rest + [other.tail] && cur2 == other.nodes[1]
      && (forall j :: 1 <= j < |nodes| - 1 ==> key(nodes[j]) == Contents[j - 1])
      && (forall j :: 1 <= j < |other.nodes| - 1 ==> key(other.nodes[j]) == other.Contents[j - 1])
      && done + MergeBy(todo, rest, key) == MergeBy(a0, b0, key)
    }

    /** One turn of `merge`'s loop: take the first node of `other` when the
        receiver is used up or that node's value is strictly smaller than
        the current one's, and otherwise step past the current node. */
    method MergeStep(other: List, cur1: Node?, cur2: Node?, ghost done: seq<Node>, ghost todo: seq<Node>,
                     ghost rest: seq<Node>, ghost a0: seq<Node>, ghost b0: seq<Node>, ghost key: Node -> int)
        returns (cur1': Node?, cur2': Node?, ghost done': seq<Node>, ghost todo': seq<Node>, ghost rest': seq<Node>)
      requires MergeScan(other, cur1, cur2, done, todo, rest, a0, b0, key) && cur2 != other.tail
      modifies this, nodes, other, other.nodes
      ensures MergeScan(other, cur1', cur2', done', todo', rest', a0, b0, key)
      ensures |todo'| + |rest'| < |todo| + |rest|
      ensures head == old(head) && tail == old(tail) && other.head == old(other.head) && other.tail == old(other.tail)
      ensures forall j :: 0 <= j < |nodes| ==> nodes[j] in old(nodes) || nodes[j] in old(other.nodes)
      ensures forall j :: 0 <= j < |other.nodes| ==> other.nodes[j] in old(other.nodes)
    {
      assert cur2 == other.nodes[1] && cur2.data == Some(other.Contents[0]);
      if cur1 == tail || cur2.data.value < cur1.data.value {
        cur2' := cur2.next;
        assert nodes[|done|] in nodes && cur1 in nodes;
        assert other.nodes[0] in other.nodes && other.nodes[1] in other.nodes && other.nodes[2] in other.nodes;
        TakeFirst(other, cur1, cur2, done, todo, rest, a0, b0, key);
        cur1', done', todo', rest' := cur1, done + [rest[0]], todo, rest[1..];
      } else {
        SkipScan(other, cur1, cur2, done, todo, rest, a0, b0, key);
        cur1', cur2' := cur1.next, cur2;
        done', todo', rest' := done + [todo[0]], todo[1..], rest;
      }
    }

    /** The skipping turn of `merge`'s loop changes no link: only the scan
        position moves past the receiver's current node. */
    lemma SkipScan(other: List, cur1: Node?, cur2: Node?, done: seq<Node>, todo: seq<Node>,
                   rest: seq<Node>, a0: seq<Node>, b0: seq<Node>, key: Node -> int)
      requires MergeScan(other, cur1, cur2, done, todo, rest, a0, b0, key) && cur2 != other.tail
      requires cur1 != tail && !(cur2.data.value < cur1.data.value)
      ensures todo != [] && MergeScan(other, cur1.next, cur2, done + [todo[0]], todo[1..], rest, a0, b0, key)
    {
      assert cur2 == other.nodes[1] && cur2.data == Some(other.Contents[0]);
      assert cur1 == (todo + [tail])[0];
      assert todo == [todo[0]] + todo[1..];
      assert key(cur1) == Contents[|done|] && key(cur2) == other.Contents[0];
      MergeSkip(done, todo, rest, key);
      assert nodes == [head] + (done + [todo[0]]) + todo[1..] + [tail];
    }

    /** The taking turn of `merge`'s loop: the first data node of `other`
        moves to just before the receiver's current node. */
    method TakeFirst(other: List, cur1: Node?, cur2: Node?, ghost done: seq<Node>, ghost todo: seq<Node>,
                     ghost rest: seq<Node>, ghost a0: seq<Node>, ghost b0: seq<Node>, ghost key: Node -> int)
      requires MergeScan(other, cur1, cur2, done, todo, rest, a0, b0, key) && cur2 != other.tail
      requires cur1 == tail || cur2.data.value < cur1.data.value
      modifies this, nodes[|done|], cur1, other, other.nodes[0], other.nodes[1], other.nodes[2]
      ensures MergeScan(other, cur1, old(cur2.next), done + [rest[0]], todo, rest[1..], a0, b0, key)
      ensures head == old(head) && tail == old(tail) && other.head == old(other.head) && other.tail == old(other.tail)
      ensures forall j :: 0 <= j < |nodes| ==> nodes[j] in old(nodes) || nodes[j] in old(other.nodes)
      ensures forall j :: 0 <= j < |other.nodes| ==> other.nodes[j] in old(other.nodes)
    {
      ghost var ns, os, c, oc := nodes, other.nodes, Contents, other.Contents;
      DistinctEnds(os, other.head, rest, other.tail);
      assert cur2 == os[1] == rest[0] && cur2.data == Some(oc[0]) && cur2.next == os[2];
      assert cur1 == (todo + [tail])[0];
      assert todo != [] ==> key(cur1) == c[|done|];
      assert ns[|done|] in ns && os[0] in os && os[1] in os && os[2] in os;
      Transfer(other, cur1, |done| + 1);
      TakenScan(other, cur1, ns, c, os, oc, done, todo, rest, a0, b0, key);
    }

    /** The scan stands right again after the taking turn: with the chains
        before the turn given as `ns` and `os`, the receiver has gained the
        first data node of `other` just before its current node. */
    lemma TakenScan(other: List, cur1: Node?, ns: seq<Node>, c: seq<int>, os: seq<Node>, oc: seq<int>,
                    done: seq<Node>, todo: seq<Node>, rest: seq<Node>, a0: seq<Node>, b0: seq<Node>, key: Node -> int)
      requires Valid() && other.Valid() && Disjoint(other)
      requires ns == [head] + done + todo + [tail] && cur1 == ns[|done| + 1] && |c| == |ns| - 2
      requires os == [other.head] + rest + [other.tail] && rest != [] && |oc| == |os| - 2
      requires forall j :: 1 <= j < |ns| - 1 ==> key(ns[j]) == c[j - 1]
      requires forall j :: 1 <= j < |os| - 1 ==> key(os[j]) == oc[j - 1]
      requires done + MergeBy(todo, rest, key) == MergeBy(a0, b0, key)
      requires todo == [] || key(rest[0]) < key(todo[0])
      requires nodes == InsertAt(ns, |done| + 1, os[1]) && Contents == InsertAt(c, |done|, oc[0])
      requires other.nodes == RemoveAt(os, 1) && other.Contents == oc[1..]
      ensures MergeScan(other, cur1, os[2], done + [rest[0]], todo, rest[1..], a0, b0, key)
      ensures forall j :: 0 <= j < |nodes| ==> nodes[j] in ns || nodes[j] in os
      ensures forall j :: 0 <= j < |other.nodes| ==> other.nodes[j] in os
    {
      MergeTake(done, todo, rest, key);
      RemoveFirstInner(os, other.head, rest, other.tail);
      RemoveAtPaired(os, oc, 1, key);
      assert RemoveAt(oc, 0) == oc[1..];
      InsertAtSplit(ns, head, done, todo, tail, rest[0]);
      InsertAtPaired(ns, c, |done| + 1, rest[0], key);
      InsertAtIndex(ns, |done| + 1, os[1]);
      InsertAtFrom(ns, |done| + 1, os[1]);
      RemoveAtFrom(os, 1);
      assert os[1] in os;
    }

    /** The body of `merge`'s taking branch: the first data node of `other`
        is unlinked there (as by `other.erase`) and spliced in just before
        `pos` (as by `insert(pos, node)`). */
    method Transfer(other: List, pos: Node, ghost i: int)
      requires Valid() && other.Valid() && Disjoint(other) && |other.nodes| > 2
      requires 0 < i < |nodes| && nodes[i] == pos
      modifies this, nodes[i - 1], pos, other, other.nodes[0], other.nodes[1], other.nodes[2]
      ensures Valid() && other.Valid() && Disjoint(other)
      ensures head == old(head) && tail == old(tail) && other.head == old(other.head) && other.tail == old(other.tail)
      ensures nodes == InsertAt(old(nodes), i, old(other.nodes[1]))
      ensures Contents == InsertAt(old(Contents), i - 1, old(other.Contents[0]))
      ensures other.nodes == RemoveAt(old(other.nodes), 1)
      ensures other.Contents == old(other.Contents[1..])
    {
      var os := other.nodes;
      var moved := other.head.next;
      assert moved == os[1] && moved.data == Some(other.Contents[0]);
      assert os[0] in os && os[2] in os && moved !in nodes && pos in nodes && nodes[i - 1] in nodes;
      RemoveAtDistinct(os, 1);
      label beforeErase:
      moved := other.EraseNode(moved, 1);
      assert forall n :: n in nodes ==> unchanged@beforeErase(n);
      StaysValid@beforeErase(this);
      label beforeInsert:
      moved := InsertNode(pos, moved, i);
      assert forall n :: n in other.nodes ==> unchanged@beforeInsert(n);
      StaysValid@beforeInsert(other);
    }

    /** `ValueOf(nodes)` labels every data node with the value it holds, so
        it is a key the node-level contract of `unique()` accepts. */
    lemma ValueOfKeys()
      requires Valid()
      ensures Keys(nodes[1..|nodes| - 1], ValueOf(nodes)) == Contents
    {
      var key := ValueOf(nodes);
      forall j | 0 <= j < |Contents| ensures key(nodes[1..|nodes| - 1][j]) == Contents[j] {
        assert nodes[j + 1] in nodes && nodes[j + 1].data == Some(Contents[j]);
      }
    }

    /** `ValueOf(nodes + other.nodes)` labels the data nodes of both lists
        with the values they hold, so it is a key `merge(other)` accepts. */
    lemma ValueOfKeysWith(other: List)
      requires Valid() && other.Valid()
      ensures Keys(nodes[1..|nodes| - 1], ValueOf(nodes + other.nodes)) == Contents
      ensures Keys(other.nodes[1..|other.nodes| - 1], ValueOf(nodes + other.nodes)) == other.Contents
    {
      var key := ValueOf(nodes + other.nodes);
      forall j | 0 <= j < |Contents| ensures key(nodes[1..|nodes| - 1][j]) == Contents[j] {
        assert nodes[j + 1] in nodes + other.nodes && nodes[j + 1].data == Some(Contents[j]);
      }
      forall j | 0 <= j < |other.Contents| ensures key(other.nodes[1..|other.nodes| - 1][j]) == other.Contents[j] {
        assert other.nodes[j + 1] in nodes + other.nodes && other.nodes[j + 1].data == Some(other.Contents[j]);
      }
    }

    /** `unique()`: while the current node and the next one hold equal
        values, the next one is unlinked; otherwise the scan moves on. The
        surviving nodes are the same objects, in their old order. */
    method Unique(ghost key: Node -> int)
      requires Valid() && Keys(nodes[1..|nodes| - 1], key) == Contents
      modifies this, nodes
      ensures Valid() && head == old(head) && tail == old(tail)
      ensures nodes[1..|nodes| - 1] == DedupBy(old(nodes[1..|nodes| - 1]), key)
      ensures Contents == DedupBy(old(Contents), Id)
      ensures forall n :: n in nodes ==> n in old(nodes)
    {
      if count <= 1 {
        return;
      }
      ghost var d0 := nodes[1..|nodes| - 1];
      ghost var done: seq<Node> := [];
      ghost var todo := d0;
      KeysInner(nodes, Contents, key);
      assert nodes == [head] + done + todo + [tail];
      var cur: Node?;
      ghost var i;
      cur, i, done, todo := UniqueLoop(head.next, 1, done, todo, d0, key);
      DedupScanDone(nodes, Contents, done, todo, d0, old(Contents), key);
    }

    /** The `while (cur != tail && cur->next != tail)` loop of `unique`
        (list.hpp:552-560), run from the scan position given until one node
        is left to look at. One turn is `UniqueStep`. The ghost `done` and
        `todo` are the surviving nodes before `cur` and the nodes from `cur`
        on. */
    method UniqueLoop(cur: Node?, ghost i: int, ghost done: seq<Node>, ghost todo: seq<Node>, ghost d0: seq<Node>, ghost key: Node -> int)
        returns (cur': Node?, ghost i': int, ghost done': seq<Node>, ghost todo': seq<Node>)
      requires UniqueScan(cur, i, done, todo, d0, key)
      modifies this, nodes
      ensures UniqueScan(cur', i', done', todo', d0, key) && |todo'| == 1
      ensures head == old(head) && tail == old(tail)
      ensures forall j :: 0 <= j < |nodes| ==> nodes[j] in old(nodes)
    {
      cur', i', done', todo' := cur, i, done, todo;
      while cur' != tail && cur'.next != tail
        invariant UniqueScan(cur', i', done', todo', d0, key)
        invariant head == old(head) && tail == old(tail)
        invariant forall j :: 0 <= j < |nodes| ==> nodes[j] in old(nodes)
        decreases |nodes| - i'
      {
        cur', i', done', todo' := UniqueStep(cur', i', done', todo', d0, key);
      }
      assert cur' == nodes[i'] && i' < |nodes| - 1 && nodes[|nodes| - 1] == tail;
      assert cur'.next == nodes[i' + 1];
    }

    /** Where the scan of `unique` stands: `cur` is the node at position
        `i`, `done` the nodes before it, which are final, and `todo` the
        nodes from it on, still to be thinned out; `done` followed by the
        thinned `todo` is the promised result for `d0`. */
    ghost predicate UniqueScan(cur: Node?, i: int, done: seq<Node>, todo: seq<Node>, d0: seq<Node>, key: Node -> int)
      reads this, nodes
    {
      && Valid() && 1 <= i < |nodes| - 1 && cur == nodes[i]
      && (forall j :: 1 <= j < |nodes| - 1 ==> key(nodes[j]) == Contents[j - 1])
      && nodes == [head] + done + todo + [tail] && |done| == i - 1
      && done + DedupBy(todo, key) == DedupBy(d0, key)
    }

    /** One turn of `unique`'s loop: unlink the node after `cur` when it
        holds the same value, and otherwise move on to it. */
    method UniqueStep(cur: Node?, ghost i: int, ghost done: seq<Node>, ghost todo: seq<Node>, ghost d0: seq<Node>, ghost key: Node -> int)
        returns (cur': Node?, ghost i': int, ghost done': seq<Node>, ghost todo': seq<Node>)
      requires UniqueScan(cur, i, done, todo, d0, key) && cur != tail && cur.next != tail
      modifies this, nodes
      ensures UniqueScan(cur', i', done', todo', d0, key)
      ensures |nodes| - i' < old(|nodes|) - i
      ensures head == old(head) && tail == old(tail)
      ensures forall j :: 0 <= j < |nodes| ==> nodes[j] in old(nodes)
    {
      assert cur.next == nodes[i + 1] && nodes[i + 1].data == Some(Contents[i]);
      assert cur.data == Some(Contents[i - 1]);
      assert i + 2 < |nodes|;
      if cur.data.value == cur.next.data.value {
        ghost var ns, c := nodes, Contents;
        assert ns[i] in ns && ns[i + 2] in ns;
        RemoveAtDistinct(ns, i + 1);
        var dup := cur.next;
        dup := EraseNode(dup, i + 1);
        DroppedScan(cur, i, ns, c, done, todo, d0, key);
        cur', i', done', todo' := cur, i, done, [todo[0]] + todo[2..];
      } else {
        KeptScan(cur, i, done, todo, d0, key);
        cur', i', done', todo' := cur.next, i + 1, done + [todo[0]], todo[1..];
      }
    }

    /** The scan stands right after `unique` unlinks the repeat that
        followed `cur`; `ns` and `c` are the chain and values before. */
    lemma DroppedScan(cur: Node?, i: int, ns: seq<Node>, c: seq<int>, done: seq<Node>, todo: seq<Node>, d0: seq<Node>, key: Node -> int)
      requires Valid() && 1 <= i && i + 2 < |ns| && cur == ns[i] && |c| == |ns| - 2
      requires forall j :: 1 <= j < |ns| - 1 ==> key(ns[j]) == c[j - 1]
      requires ns == [head] + done + todo + [tail] && |done| == i - 1
      requires done + DedupBy(todo, key) == DedupBy(d0, key)
      requires c[i - 1] == c[i]
      requires nodes == RemoveAt(ns, i + 1) && Contents == RemoveAt(c, i)
      ensures UniqueScan(cur, i, done, [todo[0]] + todo[2..], d0, key)
      ensures forall j :: 0 <= j < |nodes| ==> nodes[j] in ns
    {
      assert todo[0] == ns[i] && todo[1] == ns[i + 1];
      RemoveAtSplit(ns, head, done, todo, tail);
      RemoveAtPaired(ns, c, i + 1, key);
      RemoveAtIndex(ns, i + 1);
      RemoveAtFrom(ns, i + 1);
      assert DedupBy(todo, key) == DedupBy([todo[0]] + todo[2..], key);
    }

    /** The scan stands right after `unique` moves past a node whose
        successor holds a different value. */
    lemma KeptScan(cur: Node?, i: int, done: seq<Node>, todo: seq<Node>, d0: seq<Node>, key: Node -> int)
      requires UniqueScan(cur, i, done, todo, d0, key) && i + 2 < |nodes|
      requires Contents[i - 1] != Contents[i]
      ensures todo != [] && UniqueScan(nodes[i + 1], i + 1, done + [todo[0]], todo[1..], d0, key)
    {
      assert todo[0] == nodes[i] && todo[1] == nodes[i + 1];
      assert DedupBy(todo, key) == [todo[0]] + DedupBy(todo[1..], key);
      assert nodes == [head] + (done + [todo[0]]) + todo[1..] + [tail];
    }

    function Front(): (r: Result<int>)
      requires Valid()
      reads this, nodes
      ensures r.Err? <==> Contents == []
      ensures r.Err? ==> r.error == ContainerIsEmpty
      ensures r.Ok? ==> r.value == Contents[0]
    {
      if count == 0 then Err(ContainerIsEmpty)
      else
        assert head.next == nodes[1] && nodes[1].data == Some(Contents[0]);
        Read(head.next)
    }

    function Back(): (r: Result<int>)
      requires Valid()
      reads this, nodes
      ensures r.Err? <==> Contents == []
      ensures r.Err? ==> r.error == ContainerIsEmpty
      ensures r.Ok? ==> r.value == Contents[|Contents| - 1]
    {
      if count == 0 then Err(ContainerIsEmpty)
      else
        assert tail.prev == nodes[|nodes| - 2] && nodes[|nodes| - 2].data == Some(Contents[|Contents| - 1]);
        Read(tail.prev)
    }

    function Begin(): (it: Iterator)
      requires Valid()
      reads this, nodes
      ensures it == Iterator(nodes[1], this)
    {
      Iterator(head.next, this)
    }

    function End(): (it: Iterator)
      requires Valid()
      reads this, nodes
      ensures it == Iterator(nodes[|nodes| - 1], this)
    {
      Iterator(tail, this)
    }

    function ConstBegin(): (it: ConstIterator)
      requires Valid()
      reads this, nodes
      ensures it == ToConst(Begin())
    {
      ConstIterator(head.next, this)
    }

    function ConstEnd(): (it: ConstIterator)
      requires Valid()
      reads this, nodes
      ensures it == ToConst(End())
    {
      ConstIterator(tail, this)
    }

    function Empty(): (b: bool)
      requires Valid()
      reads this, nodes
      ensures b <==> Contents == []
    {
      count == 0
    }

    function Size(): (n: nat)
      requires Valid()
      reads this, nodes
      ensures n == |Contents|
    {
      count
    }

    /** The iterator reached from `begin()` by `k` increments. */
    function Walk(k: nat): (it: Iterator)
      requires Valid() && k <= count
      reads this, nodes
      ensures it == Iterator(nodes[k + 1], this)
      decreases k
    {
      if k == 0 then Begin() else Next(Walk(k - 1))
    }

    /** Dereferencing reads the element at a data node and fails on either
        sentinel, whichever list the iterator names. */
    lemma DerefAt(i: int, c: List?)
      requires Valid() && 0 <= i < |nodes|
      ensures Deref(Iterator(nodes[i], c)) == if 0 < i < |nodes| - 1 then Ok(Contents[i - 1]) else Err(InvalidIterator)
    {
    }

    /** A step moves one place along the chain; stepping off either end gives a null iterator. */
    lemma StepAt(i: int, c: List?)
      requires Valid() && 0 <= i < |nodes|
      ensures Next(Iterator(nodes[i], c)).ptr == if i < |nodes| - 1 then nodes[i + 1] else null
      ensures Prev(Iterator(nodes[i], c)).ptr == if 0 < i then nodes[i - 1] else null
    {
    }

    /** Forward traversal from `begin()` reads the elements in order and
        reaches `end()` after exactly `size()` steps, not before. */
    lemma Traversal()
      requires Valid()
      ensures forall k :: 0 <= k < count ==> !Equal(Walk(k), End()) && Deref(Walk(k)) == Ok(Contents[k])
      ensures Equal(Walk(count), End())
    {
      forall k | 0 <= k < count
        ensures !Equal(Walk(k), End()) && Deref(Walk(k)) == Ok(Contents[k])
      {
        DerefAt(k + 1, this);
      }
    }

    /** `begin() == end()` exactly when the list is empty. */
    lemma BeginIsEnd()
      requires Valid()
      ensures Equal(Begin(), End()) <==> Empty()
      ensures !Empty() ==> Deref(Begin()) == Front()
      ensures Empty() ==> Deref(Begin()) == Err(InvalidIterator)
    {
      DerefAt(1, this);
    }
  }
}
