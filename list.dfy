// List<T, Allocator> (StackAllocator/stackallocator.h): a circular doubly
// linked list with a sentinel node `head`; begin() is head.next and end()
// is the sentinel itself. The links of the nodes are reasoned about through
// Links, a value copy of every node's prev, next and value, so that each
// relinking step is one update of a sequence.
module Lists {

  /** BaseNode and Node merged: the links of a node and its value. The
      sentinel's value is never read. */
  class Node<T(0)> {
    var prev: Node?<T>
    var next: Node?<T>
    var value: T

    /** BaseNode(): both links null. */
    constructor Base()
      ensures prev == null && next == null
    {
      prev := null;
      next := null;
    }

    /** Node(value, prev, next). */
    constructor (value: T, prev: Node?<T>, next: Node?<T>)
      ensures this.value == value && this.prev == prev && this.next == next
    {
      this.value := value;
      this.prev := prev;
      this.next := next;
    }
  }

  /** Positions i and j of a node sequence hold different nodes. */
  predicate Apart<T(0)>(ns: seq<Node<T>>, i: nat, j: nat)
    requires i < |ns| && j < |ns|
  {
    ns[i] != ns[j]
  }

  /** No node occurs twice in `ns`. */
  ghost predicate Unique<T(0)>(ns: seq<Node<T>>)
  {
    forall i, j :: 0 <= i < j < |ns| ==> Apart(ns, i, j)
  }

  lemma Different<T(0)>(ns: seq<Node<T>>, i: nat, j: nat)
    requires Unique(ns) && i < |ns| && j < |ns| && i != j
    ensures ns[i] != ns[j]
  {
    if i < j {
      assert Apart(ns, i, j);
    } else {
      assert Apart(ns, j, i);
    }
  }

  /** `s` with `x` placed at position p. */
  function Inserted<X>(s: seq<X>, p: nat, x: X): (r: seq<X>)
    requires p <= |s|
    ensures |r| == |s| + 1
  {
    s[..p] + [x] + s[p..]
  }

  /** Placing x at the end appends it. */
  lemma InsertedAtEnd<X>(s: seq<X>, x: X)
    ensures Inserted(s, |s|, x) == s + [x]
  {
    assert s[..|s|] == s;
  }

  /** Appending the next element of `s` to a copy of its first i elements
      (behind `a`) copies its first i + 1. */
  lemma CopyStep<X>(a: seq<X>, s: seq<X>, i: nat)
    requires i < |s|
    ensures (a + s[..i]) + [s[i]] == a + s[..i + 1]
  {
    assert s[..i + 1] == s[..i] + [s[i]];
  }

  /** `s` without its element at position p. */
  function Removed<X>(s: seq<X>, p: nat): (r: seq<X>)
    requires p < |s|
    ensures |r| == |s| - 1
  {
    s[..p] + s[p + 1..]
  }

  /** `s` back to front. */
  function Reversed<X>(s: seq<X>): (r: seq<X>)
    ensures |r| == |s|
    ensures forall k :: 0 <= k < |s| ==> r[k] == s[|s| - 1 - k]
  {
    if s == [] then [] else [s[|s| - 1]] + Reversed(s[..|s| - 1])
  }

  /** The reversal of a prefix one longer: the new last element comes
      first. */
  lemma ReversedGrows<X>(s: seq<X>, i: nat)
    requires i < |s|
    ensures Reversed(s[..i + 1]) == Inserted(Reversed(s[..i]), 0, s[i])
  {
    assert s[..i + 1][..i] == s[..i];
    var r := Reversed(s[..i]);
    assert Inserted(r, 0, s[i]) == [s[i]] + r;
  }

  /** Whenever the first and the last element differ, the reversal is a
      different sequence. */
  lemma ReversedDiffers<X>(s: seq<X>)
    requires |s| >= 2 && s[0] != s[|s| - 1]
    ensures Reversed(s) != s
  {
    assert Reversed(s)[0] == s[|s| - 1];
  }

  /** The prev, next and value fields of one node, as a value. */
  datatype Link<T(0)> = Link(prev: Node?<T>, next: Node?<T>, value: T)

  /** The fields of every node of `ns`, in the current heap. */
  ghost function Links<T(0)>(ns: seq<Node<T>>): (ls: seq<Link<T>>)
    reads ns
    ensures |ls| == |ns|
    ensures forall i {:trigger ls[i]} :: 0 <= i < |ns| ==> ls[i] == Link(ns[i].prev, ns[i].next, ns[i].value)
  {
    seq(|ns|, i requires 0 <= i < |ns| reads ns => Link(ns[i].prev, ns[i].next, ns[i].value))
  }

  /** Links with the next field of position k set to t. */
  function SetNextAt<T(0)>(ls: seq<Link<T>>, k: nat, t: Node?<T>): (r: seq<Link<T>>)
    requires k < |ls|
    ensures |r| == |ls|
  {
    ls[k := ls[k].(next := t)]
  }

  /** Links with the prev field of position k set to t. */
  function SetPrevAt<T(0)>(ls: seq<Link<T>>, k: nat, t: Node?<T>): (r: seq<Link<T>>)
    requires k < |ls|
    ensures |r| == |ls|
  {
    ls[k := ls[k].(prev := t)]
  }

  /** The position before p on a circle of n + 1 nodes whose last one is
      the sentinel. */
  function Before(p: nat, n: nat): nat
  {
    if p == 0 then n else p - 1
  }

  /** The nodes `ns` (the elements, then the sentinel) with fields `ls`
      form one circle holding the values `cs`: each node's next is the
      following one and that one's prev points back, and the sentinel's
      next is the first node. */
  ghost predicate Ring<T(0)>(ns: seq<Node<T>>, ls: seq<Link<T>>, cs: seq<T>)
  {
    |ns| == |cs| + 1 && |ls| == |ns| && Unique(ns)
    && (forall i :: 0 <= i < |cs| ==> ls[i].value == cs[i])
    && (forall i :: 0 <= i < |cs| ==> Linked(ns, ls, i))
    && ls[|cs|].next == ns[0] && ls[0].prev == ns[|cs|]
  }

  /** The node at position i links forward to the one at i + 1 and that
      one links back to it. */
  ghost predicate Linked<T(0)>(ns: seq<Node<T>>, ls: seq<Link<T>>, i: nat)
    requires i + 1 < |ns| && |ls| == |ns|
  {
    ls[i].next == ns[i + 1] && ls[i + 1].prev == ns[i]
  }

  /** On a circle the node before position p is its prev, the node after
      it is its next, and an element node holds its value. */
  lemma RingNeighbours<T(0)>(ns: seq<Node<T>>, ls: seq<Link<T>>, cs: seq<T>, p: nat)
    requires Ring(ns, ls, cs) && p <= |cs|
    ensures ls[p].prev == ns[Before(p, |cs|)]
    ensures ls[p].next == ns[if p == |cs| then 0 else p + 1]
    ensures p < |cs| ==> ls[p].value == cs[p]
  {
    if p > 0 {
      assert Linked(ns, ls, p - 1);
    }
    if p < |cs| {
      assert Linked(ns, ls, p);
    }
  }

  /** insert() on the circle: linking a node that is not on it in between
      the nodes at Before(p) and p keeps a circle, holding x at position
      p. */
  lemma {:induction false} InsertRing<T(0)>(ns: seq<Node<T>>, ls: seq<Link<T>>, cs: seq<T>, p: nat, node: Node<T>, x: T)
    requires Ring(ns, ls, cs) && p <= |cs| && node !in ns
    ensures var b := Before(p, |cs|);
      Ring(Inserted(ns, p, node),
           Inserted(SetPrevAt(SetNextAt(ls, b, node), p, node), p, Link(ns[b], ns[p], x)),
           Inserted(cs, p, x))
  {
    var b := Before(p, |cs|);
    var ns', cs' := Inserted(ns, p, node), Inserted(cs, p, x);
    var ls' := Inserted(SetPrevAt(SetNextAt(ls, b, node), p, node), p, Link(ns[b], ns[p], x));
    forall i, j | 0 <= i < j < |ns'|
      ensures Apart(ns', i, j)
    {
      if i != p && j != p {
        Different(ns, if i < p then i else i - 1, if j < p then j else j - 1);
      }
    }
    forall i | 0 <= i < |cs'|
      ensures Linked(ns', ls', i)
    {
      if i + 1 < p {
        assert Linked(ns, ls, i);
      } else if i + 1 == p {
        assert i == b;
      } else if i > p {
        assert Linked(ns, ls, i - 1);
        assert i - 1 != b && i != p;
      }
    }
  }

  /** erase() on the circle: linking the neighbours of the node at position
      p to each other keeps a circle without it, holding cs without its
      p-th value. */
  lemma {:induction false} EraseRing<T(0)>(ns: seq<Node<T>>, ls: seq<Link<T>>, cs: seq<T>, p: nat)
    requires Ring(ns, ls, cs) && p < |cs|
    ensures var b := Before(p, |cs|);
      Ring(Removed(ns, p), Removed(SetPrevAt(SetNextAt(ls, b, ns[p + 1]), p + 1, ns[b]), p), Removed(cs, p))
  {
    var b := Before(p, |cs|);
    var ns', cs' := Removed(ns, p), Removed(cs, p);
    var ls' := Removed(SetPrevAt(SetNextAt(ls, b, ns[p + 1]), p + 1, ns[b]), p);
    forall i, j | 0 <= i < j < |ns'|
      ensures Apart(ns', i, j)
    {
      Different(ns, if i < p then i else i + 1, if j < p then j else j + 1);
    }
    forall i | 0 <= i < |cs'|
      ensures Linked(ns', ls', i)
    {
      if i + 1 < p {
        assert Linked(ns, ls, i);
        assert i != b && i + 1 != p + 1;
      } else if i + 1 == p {
        assert i == b;
      } else {
        assert Linked(ns, ls, i + 1);
        assert i + 1 != b && i + 2 != p + 1;
      }
    }
  }

  /** Links of a sequence with one node placed in it. */
  lemma LinksInserted<T(0)>(ns: seq<Node<T>>, p: nat, node: Node<T>)
    requires p <= |ns|
    ensures Links(Inserted(ns, p, node)) == Inserted(Links(ns), p, Link(node.prev, node.next, node.value))
  {
  }

  /** Links of a sequence with one node taken out of it. */
  lemma LinksRemoved<T(0)>(ns: seq<Node<T>>, p: nat)
    requires p < |ns|
    ensures Links(Removed(ns, p)) == Removed(Links(ns), p)
  {
  }

  /** node.next := t, for the node at position k of a sequence without
      repeats: Links of that sequence change at k only. */
  method LinkNext<T(0)>(node: Node<T>, t: Node?<T>, ghost ns: seq<Node<T>>, ghost k: nat)
    requires Unique(ns) && k < |ns| && ns[k] == node
    modifies node
    ensures node.next == t && node.prev == old(node.prev) && node.value == old(node.value)
    ensures Links(ns) == SetNextAt(old(Links(ns)), k, t)
  {
    node.next := t;
    forall i | 0 <= i < |ns| && i != k
      ensures ns[i] != node
    {
      Different(ns, i, k);
    }
  }

  /** node.prev := t, for the node at position k of a sequence without
      repeats: Links of that sequence change at k only. */
  method LinkPrev<T(0)>(node: Node<T>, t: Node?<T>, ghost ns: seq<Node<T>>, ghost k: nat)
    requires Unique(ns) && k < |ns| && ns[k] == node
    modifies node
    ensures node.prev == t && node.next == old(node.next) && node.value == old(node.value)
    ensures Links(ns) == SetPrevAt(old(Links(ns)), k, t)
  {
    node.prev := t;
    forall i | 0 <= i < |ns| && i != k
      ensures ns[i] != node
    {
      Different(ns, i, k);
    }
  }

  /** The relinking of erase(): pos, the p-th node of the circle `ns`, is
      taken out by linking its prev and its next to each other. Each relink
      is guarded by a null test, as in the source; on a circle both tests
      pass. The circle then holds cs without its p-th value. */
  method Unlink<T(0)>(pos: Node<T>, ghost ns: seq<Node<T>>, ghost cs: seq<T>, ghost p: nat)
    requires Ring(ns, Links(ns), cs) && p < |cs| && ns[p] == pos
    modifies ns
    ensures Ring(Removed(ns, p), Links(Removed(ns, p)), Removed(cs, p))
  {
    ghost var ls, b := Links(ns), Before(p, |cs|);
    RingNeighbours(ns, ls, cs, p);
    Different(ns, p, b);
    if pos.prev != null {
      LinkNext(pos.prev, pos.next, ns, b);
    }
    Different(ns, p, p + 1);
    if pos.next != null {
      LinkPrev(pos.next, pos.prev, ns, p + 1);
    }
    LinksRemoved(ns, p);
    EraseRing(ns, ls, cs, p);
  }

  /** The nodes `ch` (the sentinel, then the elements) with fields `ls`
      form an open chain holding `cs`, as in the constructors' loops: each
      node's next is the following one and that one's prev points back. */
  ghost predicate Chain<T(0)>(ch: seq<Node<T>>, ls: seq<Link<T>>, cs: seq<T>)
  {
    |ch| == |cs| + 1 && |ls| == |ch| && Unique(ch)
    && (forall i :: 0 <= i < |cs| ==> ls[i + 1].value == cs[i])
    && (forall i :: 0 <= i < |cs| ==> Linked(ch, ls, i))
  }

  /** One round of the constructors' loops: a new node whose prev is the
      last node of the chain becomes that node's next. */
  lemma {:induction false} ChainGrows<T(0)>(ch: seq<Node<T>>, ls: seq<Link<T>>, cs: seq<T>, node: Node<T>, x: T)
    requires Chain(ch, ls, cs) && node !in ch
    ensures Chain(ch + [node], SetNextAt(ls, |cs|, node) + [Link(ch[|cs|], null, x)], cs + [x])
  {
    var ch', ls', cs' := ch + [node], SetNextAt(ls, |cs|, node) + [Link(ch[|cs|], null, x)], cs + [x];
    forall i, j | 0 <= i < j < |ch'|
      ensures Apart(ch', i, j)
    {
      if j < |ch| {
        assert Apart(ch, i, j);
      }
    }
    forall i | 0 <= i < |cs'|
      ensures Linked(ch', ls', i)
    {
      if i < |cs| {
        assert Linked(ch, ls, i);
      }
    }
  }

  /** The end of the constructors: linking the last node and the sentinel
      to each other closes the chain into a circle, with the sentinel moved
      from the front to the back. */
  lemma {:induction false} ChainCloses<T(0)>(ch: seq<Node<T>>, ls: seq<Link<T>>, cs: seq<T>)
    requires Chain(ch, ls, cs)
    ensures var closed := SetPrevAt(SetNextAt(ls, |cs|, ch[0]), 0, ch[|cs|]);
      Ring(ch[1..] + [ch[0]], closed[1..] + [closed[0]], cs)
  {
    var closed := SetPrevAt(SetNextAt(ls, |cs|, ch[0]), 0, ch[|cs|]);
    var ns, ls' := ch[1..] + [ch[0]], closed[1..] + [closed[0]];
    if |cs| > 0 {
      assert Linked(ch, ls, 0);
    }
    forall i, j | 0 <= i < j < |ns|
      ensures Apart(ns, i, j)
    {
      Different(ch, i + 1, if j < |cs| then j + 1 else 0);
    }
    forall i | 0 <= i < |cs|
      ensures Linked(ns, ls', i)
    {
      if i + 1 < |cs| {
        assert Linked(ch, ls, i + 1);
      }
    }
  }

  /** One round of the sized constructors' loop: `node`, which is not on
      the chain, gets current, the chain's last node, as its prev and
      becomes current's next. */
  method Attach<T(0)>(current: Node<T>, node: Node<T>, ghost ch: seq<Node<T>>, ghost cs: seq<T>)
    requires Chain(ch, Links(ch), cs) && current == ch[|cs|] && node !in ch && node.next == null
    modifies current, node
    ensures node.value == old(node.value)
    ensures Chain(ch + [node], Links(ch + [node]), cs + [node.value])
  {
    node.prev := current;
    ghost var ls := Links(ch);
    LinkNext(current, node, ch, |cs|);
    LinksAppended(ch, node);
    ChainGrows(ch, ls, cs, node, node.value);
  }

  /** The end of the sized constructors: current, the last node of the
      chain, gets the sentinel as its next and the sentinel gets it as its
      prev. */
  method Close<T(0)>(current: Node<T>, head: Node<T>, ghost ch: seq<Node<T>>, ghost cs: seq<T>)
    requires Chain(ch, Links(ch), cs) && current == ch[|cs|] && head == ch[0]
    modifies ch
    ensures Ring(ch[1..] + [ch[0]], Links(ch[1..] + [ch[0]]), cs)
  {
    ghost var ls := Links(ch);
    LinkNext(current, head, ch, |cs|);
    LinkPrev(head, current, ch, 0);
    LinksRotated(ch);
    ChainCloses(ch, ls, cs);
  }

  /** Links of a sequence with one node added at the end. */
  lemma LinksAppended<T(0)>(ns: seq<Node<T>>, node: Node<T>)
    ensures Links(ns + [node]) == Links(ns) + [Link(node.prev, node.next, node.value)]
  {
  }

  /** Links of a sequence whose first node is moved to the back. */
  lemma LinksRotated<T(0)>(ns: seq<Node<T>>)
    requires |ns| > 0
    ensures Links(ns[1..] + [ns[0]]) == Links(ns)[1..] + [Links(ns)[0]]
  {
  }

  /** The relinking of insert(): `node`, which is not on the circle `ns`,
      goes in between pos, the p-th node, and its prev; the circle then
      holds node's value at position p. */
  method Splice<T(0)>(node: Node<T>, pos: Node<T>, ghost ns: seq<Node<T>>, ghost cs: seq<T>, ghost p: nat)
    requires Ring(ns, Links(ns), cs) && p < |ns| && ns[p] == pos && node !in ns
    modifies node, ns
    ensures Ring(Inserted(ns, p, node), Links(Inserted(ns, p, node)), Inserted(cs, p, old(node.value)))
  {
    ghost var ls, b := Links(ns), Before(p, |cs|);
    RingNeighbours(ns, ls, cs, p);
    node.next := pos;
    node.prev := pos.prev;
    LinkNext(pos.prev, node, ns, b);
    LinkPrev(pos, node, ns, p);
    LinksInserted(ns, p, node);
    InsertRing(ns, ls, cs, p, node, node.value);
  }

  class List<T(0)> {
    var head: Node<T>
    var size: nat
    /** The element nodes in order, then the sentinel. */
    ghost var nodes: seq<Node<T>>
    ghost var Contents: seq<T>
    ghost var Repr: set<object>

    /** The nodes form one circle through the sentinel and hold Contents;
        size_ is its length. */
    ghost predicate Valid()
      reads this, Repr
    {
      this in Repr && |nodes| == size + 1 && nodes[size] == head
      && (forall n :: n in nodes ==> n in Repr)
      && Ring(nodes, Links(nodes), Contents)
    }

    /** List(alloc): size 0 and a sentinel linked to itself. */
    constructor ()
      ensures Valid() && fresh(Repr) && Contents == []
      ensures head.next == head && head.prev == head
    {
      var h := new Node.Base();
      h.next := h;
      h.prev := h;
      head := h;
      size := 0;
      nodes := [h];
      Contents := [];
      Repr := {this, h};
    }

    /** List(size): `count` nodes holding the default value T(), passed in
        as `init`, linked behind the sentinel (see AppendRun). */
    constructor WithDefaults(count: nat, init: T)
      ensures Valid() && fresh(Repr) && Contents == seq(count, _ => init)
    {
      var h := new Node.Base();
      h.next := h;
      h.prev := h;
      head, size, nodes, Contents, Repr := h, 0, [h], [], {this, h};
      new;
      AppendRun(count, init);
    }

    /** List(size, value): `count` nodes holding `value` linked behind the
        sentinel (see AppendRun). */
    constructor Filled(count: nat, value: T)
      ensures Valid() && fresh(Repr) && Contents == seq(count, _ => value)
    {
      var h := new Node.Base();
      h.next := h;
      h.prev := h;
      head, size, nodes, Contents, Repr := h, 0, [h], [], {this, h};
      new;
      AppendRun(count, value);
    }

    /** The loop of both sized constructors, run on an empty list: each new
        node gets the last node as its prev and becomes that node's next,
        and after the loop the last node and the sentinel are linked to
        each other. */
    method AppendRun(count: nat, value: T)
      requires Valid() && size == 0
      modifies this, Repr
      ensures Valid() && fresh(Repr - old(Repr)) && Contents == seq(count, _ => value)
    {
      var current := head;
      ghost var ch, cs := [head], [];
      for i := 0 to count
        invariant size == i && |ch| == i + 1 && ch[0] == head && current == ch[i]
        invariant Chain(ch, Links(ch), cs) && cs == seq(i, _ => value)
        invariant this in Repr && fresh(Repr - old(Repr)) && forall n :: n in ch ==> n in Repr
      {
        var node := new Node(value, null, null);
        size := size + 1;
        Repr := Repr + {node};
        Attach(current, node, ch, cs);
        current := node;
        ch, cs := ch + [node], cs + [value];
      }
      nodes, Contents := ch[1..] + [ch[0]], cs;
      Close(current, head, ch, cs);
    }

    /** insert(pos, value): a new node holding `value` linked in just before
        `pos`, the p-th node; size_ grows by one and the new node is
        returned. */
    method Insert(pos: Node<T>, value: T, ghost p: nat) returns (node: Node<T>)
      requires Valid() && p <= size && nodes[p] == pos
      modifies this, Repr
      ensures Valid() && fresh(node) && Repr == old(Repr) + {node}
      ensures size == old(size) + 1 && head == old(head)
      ensures nodes == Inserted(old(nodes), p, node)
      ensures Contents == Inserted(old(Contents), p, value)
    {
      node := new Node(value, null, null);
      Splice(node, pos, nodes, Contents, p);
      size := size + 1;
      nodes := Inserted(nodes, p, node);
      Contents := Inserted(Contents, p, value);
      Repr := Repr + {node};
    }

    /** erase(pos): the p-th node, an element, is unlinked and size_ shrinks
        by one. */
    method Erase(pos: Node<T>, ghost p: nat)
      requires Valid() && p < size && nodes[p] == pos
      modifies this, Repr
      ensures Valid() && Repr == old(Repr) && head == old(head)
      ensures size == old(size) - 1
      ensures nodes == Removed(old(nodes), p)
      ensures Contents == Removed(old(Contents), p)
    {
      Unlink(pos, nodes, Contents, p);
      size := size - 1;
      nodes := Removed(nodes, p);
      Contents := Removed(Contents, p);
    }

    /** begin(): head.next, the first element node, or the sentinel when
        the list is empty. */
    function Begin(): (n: Node<T>)
      requires Valid()
      reads this, Repr
      ensures n == nodes[0]
    {
      RingNeighbours(nodes, Links(nodes), Contents, size);
      head.next
    }

    /** end(): the sentinel, which comes after the last element. */
    function End(): (n: Node<T>)
      requires Valid()
      reads this, Repr
      ensures n == nodes[size] && n !in nodes[..size]
    {
      assert forall i :: 0 <= i < size ==> nodes[i] != nodes[size] by {
        forall i | 0 <= i < size {
          Different(nodes, i, size);
        }
      }
      head
    }

    /** size(): the number of elements. */
    function Size(): (n: nat)
      requires Valid()
      reads this, Repr
      ensures n == |Contents|
    {
      size
    }

    /** The iterators' ++ and --: from the node at position i, next leads
        to the following position (from the last element to end(), and
        from end() back to begin()) and prev leads to the one before. */
    lemma Steps(i: nat)
      requires Valid() && i <= size
      ensures nodes[i].next == nodes[if i == size then 0 else i + 1]
      ensures nodes[i].prev == nodes[Before(i, size)]
      ensures i < size ==> nodes[i].value == Contents[i]
    {
      RingNeighbours(nodes, Links(nodes), Contents, i);
    }

    /** push_front(value): insert before begin(). */
    method PushFront(value: T)
      requires Valid()
      modifies this, Repr
      ensures Valid() && fresh(Repr - old(Repr))
      ensures Contents == [value] + old(Contents)
    {
      var _ := Insert(Begin(), value, 0);
      assert Contents == [value] + old(Contents);
    }

    /** push_back(value): insert before end(). */
    method PushBack(value: T)
      requires Valid()
      modifies this, Repr
      ensures Valid() && fresh(Repr - old(Repr))
      ensures Contents == old(Contents) + [value]
    {
      var _ := Insert(head, value, size);
      assert Contents == old(Contents) + [value];
    }

    /** pop_front(): erase begin(). */
    method PopFront()
      requires Valid() && size > 0
      modifies this, Repr
      ensures Valid() && Repr == old(Repr)
      ensures Contents == old(Contents)[1..]
    {
      Erase(Begin(), 0);
    }

    /** pop_back(): erase the node before end(). */
    method PopBack()
      requires Valid() && size > 0
      modifies this, Repr
      ensures Valid() && Repr == old(Repr)
      ensures Contents == old(Contents)[..|old(Contents)| - 1]
    {
      Steps(size);
      Erase(head.prev, size - 1);
    }

    /** clear(): erase begin() while size_ is positive. */
    method Clear()
      requires Valid()
      modifies this, Repr
      ensures Valid() && Repr == old(Repr) && head == old(head)
      ensures Contents == [] && size == 0
    {
      while size > 0
        invariant Valid() && Repr == old(Repr) && head == old(head)
        invariant Contents == old(Contents)[|old(Contents)| - size..]
        decreases size
      {
        Erase(Begin(), 0);
      }
    }

    /** One round of the copying loops: insert(pos, value) with the value
        held by `it`, the i-th node of `other`, which is left as it was;
        the iterator's next is the following node of `other`. */
    method InsertFrom(pos: Node<T>, ghost p: nat, it: Node<T>, other: List<T>, ghost i: nat)
      requires Valid() && p <= size && nodes[p] == pos
      requires other.Valid() && Repr !! other.Repr && i < other.size && it == other.nodes[i]
      modifies this, Repr
      ensures Valid() && fresh(Repr - old(Repr)) && Repr !! other.Repr && head == old(head)
      ensures other.Valid() && other.Contents == old(other.Contents) && other.nodes == old(other.nodes)
      ensures other.size == old(other.size) && other.head == old(other.head)
      ensures Contents == Inserted(old(Contents), p, other.Contents[i])
      ensures it.next == other.nodes[i + 1]
    {
      other.Steps(i);
      var _ := Insert(pos, it.value, p);
    }

    /** The loop of the copy constructor: insert(cend(), value) for each
        value of `other`, in order. */
    method AppendAll(other: List<T>)
      requires Valid() && other.Valid() && Repr !! other.Repr
      modifies this, Repr
      ensures Valid() && fresh(Repr - old(Repr)) && Repr !! other.Repr
      ensures Contents == old(Contents) + other.Contents
      ensures other.Valid() && other.Contents == old(other.Contents)
    {
      var it := other.Begin();
      ghost var i := 0;
      while it != other.End()
        invariant Valid() && fresh(Repr - old(Repr)) && Repr !! other.Repr
        invariant other.Valid() && other.Contents == old(other.Contents)
        invariant i <= other.size && it == other.nodes[i]
        invariant Contents == old(Contents) + other.Contents[..i]
        decreases other.size - i
      {
        assert it in other.nodes[..other.size] ==> i < other.size;
        ghost var before := Contents;
        InsertFrom(head, size, it, other, i);
        InsertedAtEnd(before, other.Contents[i]);
        CopyStep(old(Contents), other.Contents, i);
        it := it.next;
        i := i + 1;
      }
      assert other.Contents[..i] == other.Contents;
    }

    /** List(other): an empty list, then the copy loop. */
    constructor Copy(other: List<T>)
      requires other.Valid()
      ensures Valid() && fresh(Repr) && Contents == other.Contents
    {
      var h := new Node.Base();
      h.next := h;
      h.prev := h;
      head, size, nodes, Contents, Repr := h, 0, [h], [], {this, h};
      new;
      AppendAll(other);
    }

    /** operator=(other) as written: clear(), then insert(cbegin(), value)
        for each value of `other`. Every value goes in front of the ones
        copied before it, so the list ends up holding other's values in
        reverse order; when `other` is this list, clear() has already
        emptied it and the list stays empty. */
    method Assign(other: List<T>)
      requires Valid() && other.Valid() && (other == this || Repr !! other.Repr)
      modifies this, Repr
      ensures Valid() && fresh(Repr - old(Repr))
      ensures other == this ==> Contents == []
      ensures other != this ==> Contents == Reversed(old(other.Contents))
    {
      Clear();
      var it := other.Begin();
      ghost var i := 0;
      while it != other.End()
        invariant Valid() && fresh(Repr - old(Repr)) && other.Valid()
        invariant i <= other.size && it == other.nodes[i]
        invariant other == this ==> size == 0
        invariant other != this ==> Repr !! other.Repr && other.Contents == old(other.Contents)
        invariant other != this ==> Contents == Reversed(other.Contents[..i])
        decreases other.size - i
      {
        assert it in other.nodes[..other.size] ==> i < other.size;
        InsertFrom(Begin(), 0, it, other, i);
        ReversedGrows(other.Contents, i);
        it := it.next;
        i := i + 1;
      }
      assert other.Contents[..i] == other.Contents;
    }

    /** operator=(other) as evidently intended: a list assigned from itself
        is left alone, and otherwise clear() is followed by the copy loop,
        which keeps other's order. */
    method AssignInOrder(other: List<T>)
      requires Valid() && other.Valid() && (other == this || Repr !! other.Repr)
      modifies this, Repr
      ensures Valid() && fresh(Repr - old(Repr))
      ensures Contents == old(other.Contents)
    {
      if other == this {
        return;
      }
      Clear();
      AppendAll(other);
    }
  }
}
