/** The doubly linked list, refined to the sequence of its nodes. */
module AdList {
  import opened Bytes
  import opened Sequences

  class Node<T> {
    const value: T
    var prev: Node?<T>
    var next: Node?<T>

    constructor (value: T)
      ensures this.value == value && prev == null && next == null
    {
      this.value, prev, next := value, null, null;
    }
  }

  /** The values that a sequence of nodes holds. */
  ghost function ValuesOf<T>(nodes: seq<Node<T>>): (s: seq<T>)
    ensures |s| == |nodes| && forall i :: 0 <= i < |s| ==> s[i] == nodes[i].value
  {
    seq(|nodes|, i requires 0 <= i < |nodes| => nodes[i].value)
  }

  /** The node at a position, or null outside the list. */
  ghost function At<T>(nodes: seq<Node<T>>, i: int): Node?<T> {
    if 0 <= i < |nodes| then nodes[i] else null
  }

  /** The next chain runs through the nodes forwards. */
  ghost predicate Forward<T>(nodes: seq<Node<T>>)
    reads nodes`next
  {
    forall i {:trigger nodes[i].next} :: 0 <= i < |nodes| ==> nodes[i].next == At(nodes, i + 1)
  }

  /** The prev chain runs through the nodes backwards. */
  ghost predicate Backward<T>(nodes: seq<Node<T>>)
    reads nodes`prev
  {
    forall i {:trigger nodes[i].prev} :: 0 <= i < |nodes| ==> nodes[i].prev == At(nodes, i - 1)
  }

  lemma InsertDistinct<T(!new)>(nodes: seq<Node<T>>, k: nat, node: Node<T>)
    requires Distinct(nodes) && k <= |nodes| && node !in nodes
    ensures Distinct(Inserted(nodes, k, node))
  {
  }

  lemma RemoveDistinct<T(!new)>(nodes: seq<Node<T>>, k: nat)
    requires Distinct(nodes) && k < |nodes|
    ensures Distinct(Removed(nodes, k))
  {
  }

  lemma InsertedAtEnds<T>(s: seq<T>, x: T)
    ensures Inserted(s, 0, x) == [x] + s && Inserted(s, |s|, x) == s + [x]
  {
    assert s[|s|..] == [] && s[..0] == [];
  }

  lemma EndsInserted<T(!new)>(nodes: seq<Node<T>>, k: nat, node: Node<T>)
    requires k <= |nodes|
    ensures At(Inserted(nodes, k, node), 0) == if k == 0 then node else At(nodes, 0)
    ensures At(Inserted(nodes, k, node), |nodes|) == if k == |nodes| then node else At(nodes, |nodes| - 1)
  {
  }

  lemma ValuesInserted<T(!new)>(nodes: seq<Node<T>>, k: nat, node: Node<T>)
    requires k <= |nodes|
    ensures ValuesOf(Inserted(nodes, k, node)) == Inserted(ValuesOf(nodes), k, node.value)
  {
  }

  lemma ValuesRemoved<T(!new)>(nodes: seq<Node<T>>, k: nat)
    requires k < |nodes|
    ensures ValuesOf(Removed(nodes, k)) == Removed(ValuesOf(nodes), k)
  {
  }

  lemma RemovedSlices<T>(s: seq<T>, k: nat)
    requires k < |s|
    ensures Removed(s, k)[..k] == s[..k] && Removed(s, k)[k..] == s[k + 1..]
  {
  }

  datatype Direction = FromHead | FromTail

  /** The copies of the values, unless one of them cannot be copied. Without a function the values are shared. */
  function Copied<T>(s: seq<T>, dup: Option<T -> Option<T>>): Option<seq<T>> {
    if s == [] then Some([])
    else
      var front := Copied(s[..|s| - 1], dup);
      var last := if dup.Some? then dup.value(s[|s| - 1]) else Some(s[|s| - 1]);
      if front.Some? && last.Some? then Some(front.value + [last.value]) else None
  }

  lemma NothingCopied<T(!new)>(dup: Option<T -> Option<T>>)
    ensures Copied<T>([], dup) == Some([]) && ValuesOf<T>([]) == []
  {
  }

  lemma CopiedLast<T>(s: seq<T>, x: T, dup: Option<T -> Option<T>>)
    ensures var front := Copied(s, dup); var last := if dup.Some? then dup.value(x) else Some(x);
      Copied(s + [x], dup) == if front.Some? && last.Some? then Some(front.value + [last.value]) else None
  {
    assert (s + [x])[..|s|] == s;
  }

  /** One value that cannot be copied is enough. */
  lemma {:induction false} NoneCopied<T>(s: seq<T>, dup: Option<T -> Option<T>>, k: nat)
    requires k < |s| && Copied(s[..k + 1], dup).None?
    ensures Copied(s, dup).None?
    decreases |s|
  {
    if k + 1 < |s| {
      assert s[..|s| - 1][..k + 1] == s[..k + 1];
      NoneCopied(s[..|s| - 1], dup, k);
    } else {
      assert s[..k + 1] == s;
    }
  }

  /** The copy has the values in their order, each copied; without a function it is the same sequence. */
  lemma {:induction false} CopiedIs<T>(s: seq<T>, dup: Option<T -> Option<T>>)
    ensures dup.None? ==> Copied(s, dup) == Some(s)
    ensures dup.Some? ==> (Copied(s, dup).Some? <==> forall k :: 0 <= k < |s| ==> dup.value(s[k]).Some?)
    ensures dup.Some? && Copied(s, dup).Some? ==>
      |Copied(s, dup).value| == |s| && forall k :: 0 <= k < |s| ==> Some(Copied(s, dup).value[k]) == dup.value(s[k])
    decreases |s|
  {
    if s != [] {
      CopiedIs(s[..|s| - 1], dup);
      assert s == s[..|s| - 1] + [s[|s| - 1]];
    }
  }

  class List<T(!new)> {
    var head: Node?<T>
    var tail: Node?<T>
    var len: nat
    ghost var nodes: seq<Node<T>>

    ghost predicate Valid()
      reads this, nodes
    {
      && len == |nodes| && Distinct(nodes) && Forward(nodes) && Backward(nodes)
      && head == At(nodes, 0) && tail == At(nodes, |nodes| - 1)
    }

    ghost function Values(): seq<T>
      reads this`nodes
    {
      ValuesOf(nodes)
    }

    constructor ()
      ensures Valid() && nodes == []
    {
      head, tail, len, nodes := null, null, 0, [];
    }

    method AddNodeHead(value: T)
      requires Valid()
      modifies this, nodes
      ensures Valid() && Values() == [value] + old(Values())
      ensures nodes[1..] == old(nodes) && fresh(nodes[0])
    {
      hide Distinct, Forward, Backward, Inserted, ValuesOf;
      var node := new Node(value);
      ghost var before := nodes;
      if len == 0 {
        head, tail := node, node;
        node.prev, node.next := null, null;
      } else {
        node.prev := null;
        node.next := head;
        head := node;
      }
      EndsInserted(before, 0, node);
      InsertedAtEnds(before, node);
      InsertedAtEnds(ValuesOf(before), value);
      LinkIn(node, 0);
      ValuesInserted(before, 0, node);
    }

    method AddNodeTail(value: T)
      requires Valid()
      modifies this, nodes
      ensures Valid() && Values() == old(Values()) + [value]
      ensures |nodes| == |old(nodes)| + 1 && nodes[..|nodes| - 1] == old(nodes) && fresh(nodes[|nodes| - 1])
    {
      hide Distinct, Forward, Backward, Inserted, ValuesOf;
      var node := new Node(value);
      ghost var before := nodes;
      if len == 0 {
        head, tail := node, node;
        node.prev, node.next := null, null;
      } else {
        node.prev := tail;
        node.next := null;
        tail := node;
      }
      EndsInserted(before, |before|, node);
      InsertedAtEnds(before, node);
      InsertedAtEnds(ValuesOf(before), value);
      LinkIn(node, |before|);
      ValuesInserted(before, |before|, node);
    }

    /** Writes the next pointers around a new node that goes to position `at`. */
    method LinkNext(node: Node<T>, ghost at: nat)
      requires Distinct(nodes) && Forward(nodes) && at <= |nodes| && node !in nodes
      requires node.prev == At(nodes, at - 1) && node.next == At(nodes, at)
      modifies nodes`next
      ensures Forward(Inserted(nodes, at, node)) && node.next == old(node.next)
    {
      if node.prev != null {
        node.prev.next := node;
      }
    }

    method LinkPrev(node: Node<T>, ghost at: nat)
      requires Distinct(nodes) && Backward(nodes) && at <= |nodes| && node !in nodes
      requires node.prev == At(nodes, at - 1) && node.next == At(nodes, at)
      modifies nodes`prev
      ensures Backward(Inserted(nodes, at, node)) && node.prev == old(node.prev)
    {
      if node.next != null {
        node.next.prev := node;
      }
    }

    /** Inserts a value before or behind the node at position k. */
    method InsertNode(oldNode: Node<T>, ghost k: nat, value: T, behind: bool)
      requires Valid() && k < |nodes| && nodes[k] == oldNode
      modifies this, nodes
      ensures Valid()
      ensures var at := if behind then k + 1 else k;
        && Values() == Inserted(old(Values()), at, value)
        && fresh(nodes[at]) && nodes == Inserted(old(nodes), at, nodes[at])
    {
      hide Distinct, Forward, Backward, Inserted, ValuesOf;
      var node := new Node(value);
      ghost var before := nodes;
      ghost var at := if behind then k + 1 else k;
      NeighboursAndEnds(k);
      if behind {
        node.prev := oldNode;
        node.next := oldNode.next;
        if tail == oldNode {
          tail := node;
        }
      } else {
        node.next := oldNode;
        node.prev := oldNode.prev;
        if head == oldNode {
          head := node;
        }
      }
      EndsInserted(before, at, node);
      LinkIn(node, at);
      ValuesInserted(before, at, node);
    }

    /** Ties a node, whose own pointers are set, into the list. */
    method LinkIn(node: Node<T>, ghost at: nat)
      requires Distinct(nodes) && Forward(nodes) && Backward(nodes) && len == |nodes| && at <= |nodes| && node !in nodes
      requires node.prev == At(nodes, at - 1) && node.next == At(nodes, at)
      requires head == At(Inserted(nodes, at, node), 0) && tail == At(Inserted(nodes, at, node), |nodes|)
      modifies this`len, this`nodes, nodes`next, nodes`prev
      ensures Valid() && nodes == Inserted(old(nodes), at, node)
    {
      hide Distinct, Forward, Backward, Inserted, At, Valid;
      ghost var after := Inserted(nodes, at, node);
      InsertDistinct(nodes, at, node);
      LinkNext(node, at);
      assert Forward(after);
      LinkPrev(node, at);
      assert Forward(after) && Backward(after);
      len := len + 1;
      nodes := after;
      assert Forward(nodes) && Backward(nodes);
      Tied();
    }

    lemma Tied()
      requires len == |nodes| && Distinct(nodes) && Forward(nodes) && Backward(nodes)
      requires head == At(nodes, 0) && tail == At(nodes, |nodes| - 1)
      ensures Valid()
    {
    }

    lemma NeighboursAndEnds(k: nat)
      requires Valid() && k < |nodes|
      ensures nodes[k].next == At(nodes, k + 1) && nodes[k].prev == At(nodes, k - 1)
      ensures (head == nodes[k] <==> k == 0) && (tail == nodes[k] <==> k == |nodes| - 1)
    {
    }

    method UnlinkNext(node: Node<T>, ghost k: nat)
      requires Distinct(nodes) && Forward(nodes) && k < |nodes| && nodes[k] == node
      requires node.prev == At(nodes, k - 1) && head == At(nodes, 0)
      modifies this`head, nodes`next
      ensures Forward(Removed(nodes, k)) && head == At(Removed(nodes, k), 0) && node.next == old(node.next)
    {
      if node.prev != null {
        node.prev.next := node.next;
      } else {
        head := node.next;
      }
    }

    method UnlinkPrev(node: Node<T>, ghost k: nat)
      requires Distinct(nodes) && Backward(nodes) && k < |nodes| && nodes[k] == node
      requires node.next == At(nodes, k + 1) && tail == At(nodes, |nodes| - 1)
      modifies this`tail, nodes`prev
      ensures Backward(Removed(nodes, k)) && tail == At(Removed(nodes, k), |nodes| - 2)
    {
      if node.next != null {
        node.next.prev := node.prev;
      } else {
        tail := node.prev;
      }
    }

    /** Unlinks the node at position k. */
    method DelNode(node: Node<T>, ghost k: nat)
      requires Valid() && k < |nodes| && nodes[k] == node
      modifies this, nodes`next, nodes`prev
      ensures Valid() && nodes == Removed(old(nodes), k) && Values() == Removed(old(Values()), k)
    {
      hide Distinct, Forward, Backward, Removed, ValuesOf;
      NeighboursAndEnds(k);
      RemoveDistinct(nodes, k);
      ValuesRemoved(nodes, k);
      ghost var after := Removed(nodes, k);
      UnlinkNext(node, k);
      assert Forward(after);
      UnlinkPrev(node, k);
      assert Forward(after) && Backward(after);
      len := len - 1;
      nodes := after;
      assert Forward(after);
      assert Backward(after);
    }

    /** The node at an index; negative ones count from the tail, -1 being the last. Null if there is none. */
    method Index(index: int) returns (n: Node?<T>)
      requires Valid()
      ensures n == if index < 0 then At(nodes, |nodes| + index) else At(nodes, index)
    {
      if index < 0 {
        var left := -index - 1;
        n := tail;
        ghost var at := |nodes| - 1;
        while left > 0 && n != null
          invariant left >= 0 && -1 <= at < |nodes| && n == At(nodes, at)
          invariant n != null ==> at - left == |nodes| + index
          invariant n == null ==> |nodes| + index < 0
        {
          n := n.prev;
          left, at := left - 1, at - 1;
        }
      } else {
        var left := index;
        n := head;
        ghost var at := 0;
        while left > 0 && n != null
          invariant left >= 0 && 0 <= at <= |nodes| && n == At(nodes, at)
          invariant n != null ==> at + left == index
          invariant n == null ==> index >= |nodes|
        {
          n := n.next;
          left, at := left - 1, at + 1;
        }
      }
    }

    /** The first node from the head whose value matches. */
    method SearchKey(matches: T -> bool) returns (n: Node?<T>, ghost at: nat)
      requires Valid()
      ensures at <= |nodes| && n == At(nodes, at)
      ensures forall i :: 0 <= i < at ==> !matches(nodes[i].value)
      ensures n != null ==> matches(n.value)
    {
      var iter := new Iterator(this, FromHead);
      at := 0;
      n := iter.Next(this, 0);
      while n != null
        invariant at <= |nodes| && n == At(nodes, at) && fresh(iter)
        invariant n != null ==> iter.direction == FromHead && iter.next == At(nodes, at + 1)
        invariant forall i :: 0 <= i < at ==> !matches(nodes[i].value)
        decreases |nodes| - at
      {
        if matches(n.value) { return; }
        at := at + 1;
        n := iter.Next(this, at);
      }
    }

    /** A new list with copies of the values, or null if one cannot be copied; the original is not touched. */
    method Dup(dup: Option<T -> Option<T>>) returns (copy: List?<T>)
      requires Valid()
      ensures copy == null <==> Copied(Values(), dup).None?
      ensures copy != null ==>
        copy.Valid() && copy.Values() == Copied(Values(), dup).value && fresh(copy) && fresh(copy.nodes)
    {
      hide List.Valid, At, ValuesOf, Copied;
      var list := new List();
      NothingCopied<T>(dup);
      var iter := new Iterator(this, FromHead);
      ghost var at := 0;
      var node := iter.Next(this, 0);
      while node != null
        invariant 0 <= at <= |nodes| && node == At(nodes, at) && fresh(iter)
        invariant node != null ==> iter.direction == FromHead && iter.next == At(nodes, at + 1)
        invariant list.Valid() && fresh(list) && fresh(list.nodes)
        invariant Copied(ValuesOf(nodes[..at]), dup) == Some(list.Values())
        decreases |nodes| - at
      {
        AtBounds(nodes, at);
        ValuesNext(nodes, at);
        CopiedLast(ValuesOf(nodes[..at]), node.value, dup);
        var value := if dup.Some? then dup.value(node.value) else Some(node.value);
        if value.None? {
          ValuesFront(nodes, at + 1);
          NoneCopied(Values(), dup, at);
          return null;
        }
        list.AddNodeTail(value.value);
        at := at + 1;
        node := iter.Next(this, at);
      }
      AtBounds(nodes, at);
      assert nodes[..at] == nodes;
      copy := list;
    }
  }

  class Iterator<T(!new)> {
    var next: Node?<T>
    const direction: Direction

    constructor (list: List<T>, direction: Direction)
      requires list.Valid()
      ensures this.direction == direction
      ensures next == if direction == FromHead then At(list.nodes, 0) else At(list.nodes, |list.nodes| - 1)
    {
      this.direction := direction;
      next := if direction == FromHead then list.head else list.tail;
    }

    /** Returns the current node, if any, and moves on to its neighbour, so that the node may then be deleted. */
    method Next(list: List<T>, ghost k: int) returns (current: Node?<T>)
      requires list.Valid() && next == At(list.nodes, k)
      modifies this`next
      ensures current == old(next)
      ensures current != null ==> next == At(list.nodes, if direction == FromHead then k + 1 else k - 1)
      ensures current == null ==> next == null
    {
      current := next;
      if current != null {
        next := if direction == FromHead then current.next else current.prev;
      }
    }
  }

  /** The values that stay when those that `doomed` picks are deleted. */
  function Kept<T>(s: seq<T>, doomed: T -> bool): seq<T> {
    if s == [] then []
    else
      var k := Kept(s[..|s| - 1], doomed);
      if doomed(s[|s| - 1]) then k else k + [s[|s| - 1]]
  }

  /** The values in the order of a traversal. */
  function Ordered<T>(direction: Direction, s: seq<T>): (r: seq<T>)
    ensures |r| == |s|
  {
    if direction == FromHead then s else seq(|s|, i requires 0 <= i < |s| => s[|s| - 1 - i])
  }

  /** Where a traversal goes from position `at`, whose node may have been removed. */
  function NextPlace(direction: Direction, at: int, removed: bool): int {
    if direction == FromTail then at - 1 else if removed then at else at + 1
  }

  /**
    * Goes through a list from either end and deletes some of the nodes as they are returned: every value is visited
    * exactly once, in order, and exactly the others stay.
    */
  method VisitAndDelete<T(!new)>(list: List<T>, direction: Direction, doomed: T -> bool) returns (visited: seq<T>)
    requires list.Valid()
    modifies list, list.nodes
    ensures list.Valid() && visited == Ordered(direction, old(list.Values()))
    ensures list.Values() == Kept(old(list.Values()), doomed)
    ensures Within(list.nodes, old(list.nodes))
  {
    hide List.Valid, At, Kept, ValuesOf, Removed, Halfway, Within, Ordered;
    ghost var all := list.nodes;
    var iter := new Iterator(list, direction);
    visited := [];
    ghost var at := if direction == FromHead then 0 else |all| - 1;
    StartHalfway(direction, all, doomed);
    PlaceBounds(direction, all, [], all, at, doomed);
    var node := iter.Next(list, at);
    while node != null
      invariant list.Valid() && fresh(iter) && iter.direction == direction && Within(list.nodes, all)
      invariant node == At(list.nodes, at) && Halfway(direction, all, visited, list.nodes, at, doomed)
      invariant node != null ==> iter.next == At(list.nodes, NextPlace(direction, at, false))
      decreases |all| - |visited|
    {
      ghost var before := list.nodes;
      PlaceBounds(direction, all, visited, before, at, doomed);
      NextHalfway(direction, all, visited, before, at, doomed);
      visited := visited + [node.value];
      if doomed(node.value) {
        WithinRemoved(before, all, at);
        assert forall i :: 0 <= i < |list.nodes| ==> list.nodes[i] in old(list.nodes);
        list.DelNode(node, at);
      }
      at := NextPlace(direction, at, doomed(node.value));
      node := iter.Next(list, at);
    }
    PlaceBounds(direction, all, visited, list.nodes, at, doomed);
    EndHalfway(direction, all, visited, list.nodes, at, doomed);
  }

  lemma PlaceBounds<T(!new)>(direction: Direction, all: seq<Node<T>>, visited: seq<T>, nodes: seq<Node<T>>, at: int,
                          doomed: T -> bool)
    requires Halfway(direction, all, visited, nodes, at, doomed)
    ensures At(nodes, at) == null <==> if direction == FromHead then at == |nodes| else at == -1
    ensures At(nodes, at) != null ==> 0 <= at < |nodes| && nodes[at] == At(nodes, at)
  {
    hide Kept, ValuesOf, Ordered;
  }

  ghost predicate Within<T(!new)>(nodes: seq<Node<T>>, all: seq<Node<T>>) {
    forall i :: 0 <= i < |nodes| ==> nodes[i] in all
  }

  lemma WithinRemoved<T(!new)>(nodes: seq<Node<T>>, all: seq<Node<T>>, k: nat)
    requires Within(nodes, all) && k < |nodes|
    ensures (forall i :: 0 <= i < |nodes| ==> nodes[i] in all) && Within(Removed(nodes, k), all)
    ensures At(nodes, k + 1) == At(Removed(nodes, k), k) && At(nodes, k - 1) == At(Removed(nodes, k), k - 1)
  {
  }

  /** The nodes behind the traversal are what is left of those visited; the others are still to come. */
  ghost predicate Halfway<T(!new)>(direction: Direction, all: seq<Node<T>>, visited: seq<T>, nodes: seq<Node<T>>,
                                   at: int, doomed: T -> bool)
  {
    var n := |visited|;
    n <= |all| &&
    if direction == FromHead then
      && 0 <= at <= |nodes| && visited == ValuesOf(all[..n])
      && nodes[at..] == all[n..] && ValuesOf(nodes[..at]) == Kept(ValuesOf(all[..n]), doomed)
    else
      var m := |all| - n;
      && -1 <= at < |nodes| && visited == Ordered(FromTail, ValuesOf(all[m..]))
      && nodes[..at + 1] == all[..m] && ValuesOf(nodes[at + 1..]) == Kept(ValuesOf(all[m..]), doomed)
  }

  lemma StartHalfway<T(!new)>(direction: Direction, all: seq<Node<T>>, doomed: T -> bool)
    ensures Halfway(direction, all, [], all, if direction == FromHead then 0 else |all| - 1, doomed)
    ensures Within(all, all)
  {
    hide Kept, ValuesOf, Ordered;
    NothingKept<T>(doomed);
    NothingOrdered<T>(direction);
    assert all[0..] == all && all[..0] == [] && all[..|all|] == all && all[|all|..] == [];
  }

  lemma NextHalfway<T(!new)>(direction: Direction, all: seq<Node<T>>, visited: seq<T>, nodes: seq<Node<T>>, at: int,
                             doomed: T -> bool)
    requires Halfway(direction, all, visited, nodes, at, doomed) && 0 <= at < |nodes|
    ensures |visited| < |all|
    ensures var x := nodes[at].value; var next := NextPlace(direction, at, doomed(x));
      Halfway(direction, all, visited + [x], if doomed(x) then Removed(nodes, at) else nodes, next, doomed)
  {
    hide Halfway;
    if direction == FromHead {
      NextFromHead(all, visited, nodes, at, doomed);
    } else {
      NextFromTail(all, visited, nodes, at, doomed);
    }
  }

  lemma NextFromHead<T(!new)>(all: seq<Node<T>>, visited: seq<T>, nodes: seq<Node<T>>, at: nat, doomed: T -> bool)
    requires Halfway(FromHead, all, visited, nodes, at, doomed) && at < |nodes|
    ensures |visited| < |all|
    ensures var x := nodes[at].value;
      if doomed(x) then Halfway(FromHead, all, visited + [x], Removed(nodes, at), at, doomed)
      else Halfway(FromHead, all, visited + [x], nodes, at + 1, doomed)
  {
    hide Removed, Kept, ValuesOf;
    var i := |visited|;
    assert nodes[at] == nodes[at..][0] == all[i];
    assert nodes[at + 1..] == nodes[at..][1..] == all[i + 1..];
    ValuesNext(all, i);
    ValuesNext(nodes, at);
    KeptLast(visited, nodes[at].value, doomed);
    RemovedSlices(nodes, at);
  }

  lemma NextFromTail<T(!new)>(all: seq<Node<T>>, visited: seq<T>, nodes: seq<Node<T>>, at: nat, doomed: T -> bool)
    requires Halfway(FromTail, all, visited, nodes, at, doomed) && at < |nodes|
    ensures |visited| < |all|
    ensures var x := nodes[at].value;
      Halfway(FromTail, all, visited + [x], if doomed(x) then Removed(nodes, at) else nodes, at - 1, doomed)
  {
    hide Removed, Kept, ValuesOf, Ordered;
    var m := |all| - |visited|;
    assert nodes[at] == nodes[..at + 1][at] == all[..m][m - 1];
    assert nodes[..at] == nodes[..at + 1][..at] == all[..m - 1];
    ValuesBefore(all, m - 1);
    ValuesBefore(nodes, at);
    KeptFirst(nodes[at].value, ValuesOf(all[m..]), doomed);
    OrderedLast(nodes[at].value, ValuesOf(all[m..]));
    RemovedSlices(nodes, at);
  }

  lemma EndHalfway<T(!new)>(direction: Direction, all: seq<Node<T>>, visited: seq<T>, nodes: seq<Node<T>>, at: int,
                            doomed: T -> bool)
    requires Halfway(direction, all, visited, nodes, at, doomed)
    requires at == if direction == FromHead then |nodes| else -1
    ensures visited == Ordered(direction, ValuesOf(all)) && ValuesOf(nodes) == Kept(ValuesOf(all), doomed)
  {
    if direction == FromHead {
      assert nodes[at..] == [] && nodes[..at] == nodes;
      assert all[..|visited|] == all;
    } else {
      assert nodes[..0] == [] && nodes[0..] == nodes;
      assert all[0..] == all;
    }
  }

  lemma AtBounds<T(!new)>(nodes: seq<Node<T>>, i: nat)
    requires i <= |nodes|
    ensures At(nodes, i) == null <==> i == |nodes|
    ensures i < |nodes| ==> nodes[i] == At(nodes, i)
  {
  }

  lemma ValuesBefore<T(!new)>(nodes: seq<Node<T>>, i: nat)
    requires i < |nodes|
    ensures ValuesOf(nodes[i..]) == [nodes[i].value] + ValuesOf(nodes[i + 1..])
  {
  }

  lemma {:induction false} KeptFirst<T>(x: T, s: seq<T>, doomed: T -> bool)
    ensures Kept([x] + s, doomed) == if doomed(x) then Kept(s, doomed) else [x] + Kept(s, doomed)
    decreases |s|
  {
    if s == [] {
      assert [x] + s == [] + [x];
      KeptLast([], x, doomed);
    } else {
      var front, last := s[..|s| - 1], s[|s| - 1];
      assert s == front + [last] && [x] + s == [x] + front + [last];
      KeptFirst(x, front, doomed);
      KeptLast([x] + front, last, doomed);
      KeptLast(front, last, doomed);
    }
  }

  lemma NothingOrdered<T>(direction: Direction)
    ensures Ordered<T>(direction, []) == []
  {
  }

  lemma OrderedLast<T>(x: T, s: seq<T>)
    ensures Ordered(FromTail, [x] + s) == Ordered(FromTail, s) + [x]
  {
  }

  lemma NothingKept<T(!new)>(doomed: T -> bool)
    ensures Kept<T>([], doomed) == [] && ValuesOf<T>([]) == []
  {
  }

  lemma ValuesFront<T(!new)>(nodes: seq<Node<T>>, i: nat)
    requires i <= |nodes|
    ensures ValuesOf(nodes[..i]) == ValuesOf(nodes)[..i]
  {
  }

  lemma ValuesNext<T(!new)>(nodes: seq<Node<T>>, i: nat)
    requires i < |nodes|
    ensures ValuesOf(nodes[..i + 1]) == ValuesOf(nodes[..i]) + [nodes[i].value]
  {
  }

  lemma KeptLast<T>(s: seq<T>, x: T, doomed: T -> bool)
    ensures Kept(s + [x], doomed) == if doomed(x) then Kept(s, doomed) else Kept(s, doomed) + [x]
  {
    assert (s + [x])[..|s|] == s;
  }
}
