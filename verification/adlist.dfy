/**
 * The generic doubly linked list of adlist.c: nodes carry a value and
 * `prev`/`next` links, the list keeps `head`, `tail` and `len`, and an
 * iterator walks the links in either direction.
 *
 * The abstraction is the ghost sequence `Nodes` (the node objects from head
 * to tail) and the ghost sequence `Values` (their values); `Valid()` ties the
 * links, `head`, `tail` and `len` to them.
 */
module AdList {
  import opened Common

  /** Iteration directions (`AL_START_HEAD`, `AL_START_TAIL`). */
  const StartHead: int := 0
  const StartTail: int := 1

  class Node<T> {
    var value: T
    var prev: Node?<T>
    var next: Node?<T>

    constructor (v: T)
      ensures value == v && prev == null && next == null
    {
      value, prev, next := v, null, null;
    }
  }

  /** The position of the first occurrence of `x` in `s`. */
  ghost function IndexOf<T>(s: seq<T>, x: T): (i: nat)
    requires x in s
    ensures i < |s| && s[i] == x && x !in s[..i]
  {
    if s[0] == x then 0 else 1 + IndexOf(s[1..], x)
  }

  /** In a sequence without repeats, the element at `k` is found at `k`. */
  lemma IndexOfNoDup<T>(s: seq<T>, k: nat)
    requires NoDup(s) && k < |s|
    ensures IndexOf(s, s[k]) == k
  {
  }

  ghost function Reverse<T>(s: seq<T>): (r: seq<T>)
    ensures |r| == |s|
    ensures forall i :: 0 <= i < |s| ==> r[i] == s[|s| - 1 - i]
  {
    if s == [] then [] else Reverse(s[1..]) + [s[0]]
  }

  /**
   * The nodes an iterator positioned at `next` still has to return, in the
   * order it returns them: from `next` to the tail when walking from the
   * head, from `next` back to the head otherwise.
   */
  ghost function Rest<T>(nodes: seq<Node<T>>, next: Node?<T>, direction: int): (r: seq<Node<T>>)
  {
    if next == null || next !in nodes then []
    else if direction == StartHead then nodes[IndexOf(nodes, next)..]
    else Reverse(nodes[..IndexOf(nodes, next) + 1])
  }

  /** The node an iterator walking in `direction` reaches after `nodes[i]` (null past either end). */
  ghost function Following<T>(nodes: seq<Node<T>>, i: nat, direction: int): Node?<T>
    requires i < |nodes|
  {
    if direction == StartHead then (if i + 1 < |nodes| then nodes[i + 1] else null)
    else if i > 0 then nodes[i - 1] else null
  }

  /** One step of an iteration: the node at `i` comes first, then everything after it in the walking order. */
  lemma RestStep<T>(nodes: seq<Node<T>>, i: nat, direction: int)
    requires NoDup(nodes) && i < |nodes|
    ensures Rest(nodes, nodes[i], direction) == [nodes[i]] + Rest(nodes, Following(nodes, i, direction), direction)
  {
    IndexOfNoDup(nodes, i);
    if direction == StartHead {
      if i + 1 < |nodes| {
        IndexOfNoDup(nodes, i + 1);
      }
      assert nodes[i..] == [nodes[i]] + nodes[i + 1..];
    } else {
      if i > 0 {
        IndexOfNoDup(nodes, i - 1);
      }
      var r, r' := Reverse(nodes[..i + 1]), Reverse(nodes[..i]);
      assert r == [nodes[i]] + r' by {
        forall k | 0 <= k < |r| ensures r[k] == ([nodes[i]] + r')[k] {
          if k > 0 {
            assert r[k] == nodes[i - k] == r'[k - 1];
          }
        }
      }
    }
  }

  /** The value stored for `v` in a copy: `dup(v)` when a dup method is set, `v` itself otherwise. */
  function DupOne<T>(dup: Option<T -> Option<T>>, v: T): Option<T>
  {
    if dup.None? then Some(v) else dup.value(v)
  }

  /**
   * The values of a copy of `vs`, or `None` when duplicating one of them
   * fails.
   */
  function DupValues<T>(dup: Option<T -> Option<T>>, vs: seq<T>): (r: Option<seq<T>>)
    ensures r.Some? <==> forall i :: 0 <= i < |vs| ==> DupOne(dup, vs[i]).Some?
    ensures r.Some? ==> |r.value| == |vs| && forall i :: 0 <= i < |vs| ==> DupOne(dup, vs[i]) == Some(r.value[i])
  {
    if vs == [] then Some([])
    else
      var front := DupValues(dup, vs[..|vs| - 1]);
      var last := DupOne(dup, vs[|vs| - 1]);
      if front.None? || last.None? then None else Some(front.value + [last.value])
  }

  /** Without a dup method a copy holds the very same values. */
  lemma {:induction false} DupWithoutMethod<T>(vs: seq<T>)
    ensures DupValues(None, vs) == Some(vs)
  {
    var r := DupValues(None, vs);
    assert r.Some?;
    assert r.value == vs;
  }

  /** Whether `v` matches `key`: by the match method when one is set, by identity otherwise. */
  function Matches<T(==)>(matcher: Option<(T, T) -> bool>, v: T, key: T): bool
  {
    if matcher.Some? then matcher.value(v, key) else v == key
  }

  /** The position of the first value from the head that matches `key`, or `|vs|` when none does. */
  function FirstMatch<T(==)>(matcher: Option<(T, T) -> bool>, vs: seq<T>, key: T): (i: nat)
    ensures i <= |vs|
    ensures i < |vs| ==> Matches(matcher, vs[i], key)
    ensures forall j :: 0 <= j < i ==> !Matches(matcher, vs[j], key)
  {
    if vs == [] then 0
    else if Matches(matcher, vs[0], key) then 0
    else 1 + FirstMatch(matcher, vs[1..], key)
  }

  /**
   * The zero-based position `index` denotes in a list of `len` elements:
   * non-negative indices count from the head, negative ones from the tail
   * (-1 is the last element); `None` when out of range.
   */
  function Position(len: nat, index: int): Option<nat>
  {
    if index < 0 then (if -index <= len then Some(len - -index) else None)
    else if index < len then Some(index) else None
  }

  /** An element can be reached from either end: `k` and `k - len` name the same position. */
  lemma PositionFromEitherEnd(len: nat, k: nat)
    requires k < len
    ensures Position(len, k) == Position(len, k - len) == Some(k)
    ensures Position(len, len) == Position(len, -(len as int) - 1) == None
  {
  }

  class List<T(==)> {
    var head: Node?<T>
    var tail: Node?<T>
    var len: nat
    var dup: Option<T -> Option<T>>
    var matcher: Option<(T, T) -> bool>
    ghost var Nodes: seq<Node<T>>
    ghost var Values: seq<T>

    /**
     * `Nodes` are the nodes from head to tail, each linked to its
     * neighbours, and `len` counts them.
     */
    ghost predicate Valid()
      reads this, Nodes
    {
      && len == |Nodes| == |Values|
      && (if Nodes == [] then head == null && tail == null
          else head == Nodes[0] && tail == Nodes[|Nodes| - 1] && head.prev == null && tail.next == null)
      && (forall i :: 0 <= i < |Nodes| ==> Nodes[i].value == Values[i])
      && (forall i {:trigger Nodes[i].next} :: 0 <= i < |Nodes| - 1 ==> Nodes[i].next == Nodes[i + 1])
      && (forall i {:trigger Nodes[i].prev} :: 0 < i < |Nodes| ==> Nodes[i].prev == Nodes[i - 1])
    }

    /** Neighbouring nodes are linked both ways. */
    lemma Link(i: nat)
      requires Valid() && 0 < i < |Nodes|
      ensures Nodes[i - 1].next == Nodes[i] && Nodes[i].prev == Nodes[i - 1]
    {
    }

    /** The links make the nodes pairwise distinct: following `next` from a repeated node never reaches null. */
    lemma {:induction false} Distinct(p: nat, q: nat)
      requires Valid() && p < q < |Nodes|
      ensures Nodes[p] != Nodes[q]
      decreases |Nodes| - q
    {
      if q + 1 < |Nodes| {
        Distinct(p + 1, q + 1);
        Link(p + 1);
        Link(q + 1);
      } else {
        Link(p + 1);
      }
    }

    lemma DistinctFrom(k: nat)
      requires Valid() && k < |Nodes|
      ensures forall j :: 0 <= j < |Nodes| && j != k ==> Nodes[j] != Nodes[k]
    {
      forall j | 0 <= j < |Nodes| && j != k ensures Nodes[j] != Nodes[k] {
        if j < k {
          Distinct(j, k);
        } else {
          Distinct(k, j);
        }
      }
    }

    lemma ValidNoDup()
      requires Valid()
      ensures NoDup(Nodes)
    {
      forall p, q | 0 <= p < q < |Nodes| ensures Nodes[p] != Nodes[q] {
        Distinct(p, q);
      }
    }

    /** `listCreate`: an empty list with no dup or match method. */
    constructor ()
      ensures Valid() && Nodes == [] && Values == []
      ensures dup.None? && matcher.None?
    {
      head, tail, len := null, null, 0;
      dup, matcher := None, None;
      Nodes, Values := [], [];
    }

    /** `listAddNodeHead`: the value becomes the first element. */
    method AddNodeHead(value: T)
      requires Valid()
      modifies this, Nodes
      ensures Valid()
      ensures Values == [value] + old(Values)
      ensures |Nodes| == |old(Nodes)| + 1 && fresh(Nodes[0]) && Nodes[1..] == old(Nodes)
      ensures dup == old(dup) && matcher == old(matcher)
    {
      var node := new Node(value);
      if len == 0 {
        head, tail := node, node;
      } else {
        node.next := head;
        head.prev := node;
        head := node;
      }
      len := len + 1;
      Nodes, Values := [node] + Nodes, [value] + Values;
    }

    /** `listAddNodeTail`: the value becomes the last element. */
    method AddNodeTail(value: T)
      requires Valid()
      modifies this, Nodes
      ensures Valid()
      ensures Values == old(Values) + [value]
      ensures |Nodes| == |old(Nodes)| + 1 && fresh(Nodes[|Nodes| - 1]) && Nodes[..|Nodes| - 1] == old(Nodes)
      ensures dup == old(dup) && matcher == old(matcher)
    {
      var node := new Node(value);
      if len == 0 {
        head, tail := node, node;
      } else {
        node.prev := tail;
        tail.next := node;
        tail := node;
      }
      len := len + 1;
      Nodes, Values := Nodes + [node], Values + [value];
    }

    /**
     * The pointer work of `listInsertNode`: `node` is linked in right after
     * `oldNode` (`after`) or right before it, and the list ends follow.
     */
    method Splice(oldNode: Node<T>, node: Node<T>, after: bool, ghost i: nat)
      requires Valid() && i < |Nodes| && Nodes[i] == oldNode && node !in Nodes
      modifies this, Nodes, node
      ensures Nodes == old(Nodes) && Values == old(Values) && len == old(len)
      ensures dup == old(dup) && matcher == old(matcher) && node.value == old(node.value)
      ensures var n, at := old(Nodes), i + if after then 1 else 0;
        && node.prev == (if at == 0 then null else n[at - 1])
        && node.next == (if at == |n| then null else n[at])
        && (at > 0 ==> n[at - 1].next == node)
        && (at < |n| ==> n[at].prev == node)
        && head == (if at == 0 then node else old(head))
        && tail == (if at == |n| then node else old(tail))
        && (forall j {:trigger n[j].value} :: 0 <= j < |n| ==> n[j].value == old(n[j].value))
        && (forall j {:trigger n[j].next} :: 0 <= j < |n| && j + 1 != at ==> n[j].next == old(n[j].next))
        && (forall j {:trigger n[j].prev} :: 0 <= j < |n| && j != at ==> n[j].prev == old(n[j].prev))
    {
      DistinctFrom(i);
      if i > 0 {
        Link(i);
        DistinctFrom(i - 1);
      }
      if i + 1 < |Nodes| {
        Link(i + 1);
        DistinctFrom(i + 1);
      }
      if after {
        node.prev := oldNode;
        node.next := oldNode.next;
        if tail == oldNode {
          tail := node;
        }
      } else {
        node.next := oldNode;
        node.prev := oldNode.prev;
        if head == oldNode {
          head := node;
        }
      }
      if node.prev != null {
        node.prev.next := node;
      }
      if node.next != null {
        node.next.prev := node;
      }
    }

    /** After `Splice` and the bookkeeping, the list is well formed again with `node` at `at`. */
    twostate lemma SpliceKeepsValid(new n: seq<Node<T>>, new node: Node<T>, at: nat)
      requires old(Valid()) && n == old(Nodes) && at <= |n| && node !in n
      requires Nodes == n[..at] + [node] + n[at..] && Values == old(Values)[..at] + [node.value] + old(Values)[at..]
      requires len == |Nodes|
      requires node.prev == (if at == 0 then null else n[at - 1])
      requires node.next == (if at == |n| then null else n[at])
      requires at > 0 ==> n[at - 1].next == node
      requires at < |n| ==> n[at].prev == node
      requires head == (if at == 0 then node else old(head))
      requires tail == (if at == |n| then node else old(tail))
      requires forall j {:trigger n[j].value} :: 0 <= j < |n| ==> n[j].value == old(n[j].value)
      requires forall j {:trigger n[j].next} :: 0 <= j < |n| && j + 1 != at ==> n[j].next == old(n[j].next)
      requires forall j {:trigger n[j].prev} :: 0 <= j < |n| && j != at ==> n[j].prev == old(n[j].prev)
      ensures Valid()
    {
      forall j | 0 <= j < |Nodes| ensures Nodes[j] == if j < at then n[j] else if j == at then node else n[j - 1] { }
      forall j | 0 <= j < |Nodes| ensures Nodes[j].value == Values[j] {
        if j < at {
          assert old(n[j].value) == old(Values)[j];
        } else if j > at {
          assert old(n[j - 1].value) == old(Values)[j - 1];
        }
      }
      forall j | 0 <= j < |Nodes| - 1 ensures Nodes[j].next == Nodes[j + 1] {
        if j + 1 < at {
          assert old(n[j].next) == n[j + 1];
        } else if j > at {
          assert old(n[j - 1].next) == n[j];
        }
      }
      forall j | 0 < j < |Nodes| ensures Nodes[j].prev == Nodes[j - 1] {
        if j < at {
          assert old(n[j].prev) == n[j - 1];
        } else if j > at + 1 {
          assert old(n[j - 1].prev) == n[j - 2];
        }
      }
      if at > 0 && at == |n| {
        assert old(n[at - 1].prev) == old(head.prev) || at > 1;
      }
    }

    /**
     * `listInsertNode`: the value is placed right after `oldNode` when
     * `after` holds, right before it otherwise.
     */
    method InsertNode(oldNode: Node<T>, value: T, after: bool)
      requires Valid() && oldNode in Nodes
      modifies this, Nodes
      ensures Valid()
      ensures var at := IndexOf(old(Nodes), oldNode) + if after then 1 else 0;
        && Values == old(Values)[..at] + [value] + old(Values)[at..]
        && |Nodes| == |old(Nodes)| + 1 && fresh(Nodes[at])
        && Nodes == old(Nodes)[..at] + [Nodes[at]] + old(Nodes)[at..]
      ensures dup == old(dup) && matcher == old(matcher)
    {
      var node := new Node(value);
      Place(oldNode, node, after, IndexOf(Nodes, oldNode));
    }

    /** `Splice` followed by the length and the abstract contents, as `listInsertNode` does. */
    method Place(oldNode: Node<T>, node: Node<T>, after: bool, ghost i: nat)
      requires Valid() && i < |Nodes| && Nodes[i] == oldNode && node !in Nodes
      modifies this, Nodes, node
      ensures Valid()
      ensures Nodes == old(Nodes)[..i + if after then 1 else 0] + [node] + old(Nodes)[i + if after then 1 else 0..]
      ensures Values == old(Values)[..i + if after then 1 else 0] + [old(node.value)] + old(Values)[i + if after then 1 else 0..]
      ensures dup == old(dup) && matcher == old(matcher)
    {
      ghost var n := Nodes;
      ghost var at := i + if after then 1 else 0;
      Splice(oldNode, node, after, i);
      len := len + 1;
      Nodes, Values := Nodes[..at] + [node] + Nodes[at..], Values[..at] + [node.value] + Values[at..];
      SpliceKeepsValid(n, node, at);
    }

    /**
     * The pointer work of `listDelNode`: the neighbours of `node` are linked
     * to each other, and the list ends follow.
     */
    method Unlink(node: Node<T>, ghost i: nat)
      requires Valid() && i < |Nodes| && Nodes[i] == node
      modifies Nodes, this
      ensures Nodes == old(Nodes) && Values == old(Values) && len == old(len)
      ensures dup == old(dup) && matcher == old(matcher)
      ensures var n := old(Nodes);
        && (i > 0 ==> n[i - 1].next == if i + 1 < |n| then n[i + 1] else null)
        && (i + 1 < |n| ==> n[i + 1].prev == if i > 0 then n[i - 1] else null)
        && head == (if i == 0 then (if i + 1 < |n| then n[i + 1] else null) else old(head))
        && tail == (if i + 1 == |n| then (if i > 0 then n[i - 1] else null) else old(tail))
        && (forall j {:trigger n[j].value} :: 0 <= j < |n| ==> n[j].value == old(n[j].value))
        && (forall j {:trigger n[j].next} :: 0 <= j < |n| && j + 1 != i ==> n[j].next == old(n[j].next))
        && (forall j {:trigger n[j].prev} :: 0 <= j < |n| && j != i + 1 ==> n[j].prev == old(n[j].prev))
    {
      if i > 0 {
        Link(i);
        DistinctFrom(i - 1);
      }
      if i + 1 < |Nodes| {
        Link(i + 1);
        DistinctFrom(i + 1);
      }
      if node.prev != null {
        node.prev.next := node.next;
      } else {
        head := node.next;
      }
      if node.next != null {
        node.next.prev := node.prev;
      } else {
        tail := node.prev;
      }
    }

    /** After `Unlink` and the bookkeeping, the list is well formed again without `n[i]`. */
    twostate lemma UnlinkKeepsValid(new n: seq<Node<T>>, i: nat)
      requires old(Valid()) && n == old(Nodes) && i < |n|
      requires Nodes == n[..i] + n[i + 1..] && Values == old(Values)[..i] + old(Values)[i + 1..]
      requires len == |Nodes|
      requires i > 0 ==> n[i - 1].next == if i + 1 < |n| then n[i + 1] else null
      requires i + 1 < |n| ==> n[i + 1].prev == if i > 0 then n[i - 1] else null
      requires head == if i == 0 then (if i + 1 < |n| then n[i + 1] else null) else old(head)
      requires tail == if i + 1 == |n| then (if i > 0 then n[i - 1] else null) else old(tail)
      requires forall j {:trigger n[j].value} :: 0 <= j < |n| ==> n[j].value == old(n[j].value)
      requires forall j {:trigger n[j].next} :: 0 <= j < |n| && j + 1 != i ==> n[j].next == old(n[j].next)
      requires forall j {:trigger n[j].prev} :: 0 <= j < |n| && j != i + 1 ==> n[j].prev == old(n[j].prev)
      ensures Valid()
    {
      forall j | 0 <= j < |Nodes| ensures Nodes[j] == n[if j < i then j else j + 1] { }
      forall j | 0 <= j < |Nodes| ensures Nodes[j].value == Values[j] {
        var k := if j < i then j else j + 1;
        assert old(n[k].value) == old(Values)[k];
      }
      forall j | 0 <= j < |Nodes| - 1 ensures Nodes[j].next == Nodes[j + 1] {
        if j + 1 < i {
          assert old(n[j].next) == n[j + 1];
        } else if j + 1 > i {
          assert old(n[j + 1].next) == n[j + 2];
        }
      }
      forall j | 0 < j < |Nodes| ensures Nodes[j].prev == Nodes[j - 1] {
        if j < i {
          assert old(n[j].prev) == n[j - 1];
        } else if j > i {
          assert old(n[j + 1].prev) == n[j];
        }
      }
    }

    /** `listDelNode`: exactly that node leaves the list. */
    method DelNode(node: Node<T>)
      requires Valid() && node in Nodes
      modifies this, Nodes
      ensures Valid()
      ensures var i := IndexOf(old(Nodes), node);
        && Nodes == old(Nodes)[..i] + old(Nodes)[i + 1..]
        && Values == old(Values)[..i] + old(Values)[i + 1..]
      ensures dup == old(dup) && matcher == old(matcher)
    {
      ghost var n := Nodes;
      ghost var i := IndexOf(n, node);
      Unlink(node, i);
      len := len - 1;
      Nodes, Values := Nodes[..i] + Nodes[i + 1..], Values[..i] + Values[i + 1..];
      UnlinkKeepsValid(n, i);
    }

    /** `listRotate`: the last element moves to the front. */
    method Rotate()
      requires Valid()
      modifies this, Nodes
      ensures Valid()
      ensures |old(Nodes)| <= 1 ==> Nodes == old(Nodes) && Values == old(Values)
      ensures |old(Nodes)| > 1 ==>
        && Nodes == [old(Nodes)[|old(Nodes)| - 1]] + old(Nodes)[..|old(Nodes)| - 1]
        && Values == [old(Values)[|old(Values)| - 1]] + old(Values)[..|old(Values)| - 1]
      ensures dup == old(dup) && matcher == old(matcher)
    {
      var last := tail;
      if len <= 1 {
        return;
      }
      ghost var n := Nodes;
      Link(|n| - 1);
      DistinctFrom(0);
      DistinctFrom(|n| - 2);
      DistinctFrom(|n| - 1);
      tail := last.prev;
      tail.next := null;
      head.prev := last;
      last.prev := null;
      last.next := head;
      head := last;
      Nodes := [Nodes[|Nodes| - 1]] + Nodes[..|Nodes| - 1];
      Values := [Values[|Values| - 1]] + Values[..|Values| - 1];
      RotateKeepsValid(n);
    }

    /** After the pointer work of `Rotate`, the list is well formed again with its last node first. */
    twostate lemma RotateKeepsValid(new n: seq<Node<T>>)
      requires old(Valid()) && n == old(Nodes) && |n| > 1
      requires Nodes == [n[|n| - 1]] + n[..|n| - 1] && Values == [old(Values)[|n| - 1]] + old(Values)[..|n| - 1]
      requires len == |n| && head == n[|n| - 1] && tail == n[|n| - 2]
      requires n[|n| - 1].prev == null && n[|n| - 1].next == n[0]
      requires n[0].prev == n[|n| - 1] && n[|n| - 2].next == null
      requires forall j {:trigger n[j].value} :: 0 <= j < |n| ==> n[j].value == old(n[j].value)
      requires forall j {:trigger n[j].next} :: 0 <= j < |n| - 2 ==> n[j].next == old(n[j].next)
      requires forall j {:trigger n[j].prev} :: 0 < j < |n| - 1 ==> n[j].prev == old(n[j].prev)
      ensures Valid()
    {
      forall j | 0 <= j < |Nodes| ensures Nodes[j] == n[if j == 0 then |n| - 1 else j - 1] { }
      forall j | 0 <= j < |Nodes| ensures Nodes[j].value == Values[j] {
        var k := if j == 0 then |n| - 1 else j - 1;
        assert old(n[k].value) == old(Values)[k];
      }
      forall j | 0 < j < |Nodes| - 1 ensures Nodes[j].next == Nodes[j + 1] {
        assert old(n[j - 1].next) == n[j];
      }
      forall j | 1 < j < |Nodes| ensures Nodes[j].prev == Nodes[j - 1] {
        assert old(n[j - 1].prev) == n[j - 2];
      }
    }

    /**
     * `listSearchKey`: the first node from the head whose value matches
     * `key`, or null when none does.
     */
    method SearchKey(key: T) returns (r: Node?<T>)
      requires Valid()
      ensures var i := FirstMatch(matcher, Values, key);
        (i == |Values| ==> r == null) && (i < |Values| ==> r == Nodes[i])
    {
      var node := head;
      ghost var k := 0;
      while node != null
        invariant k <= |Nodes| && node == if k < |Nodes| then Nodes[k] else null
        invariant forall j :: 0 <= j < k ==> !Matches(matcher, Values[j], key)
        decreases |Nodes| - k
      {
        var hit := if matcher.Some? then matcher.value(node.value, key) else key == node.value;
        if hit {
          return node;
        }
        node := node.next;
        k := k + 1;
      }
      return null;
    }

    /**
     * `listIndex`: the node at position `index`, counting from the tail when
     * `index` is negative, or null when out of range.
     */
    method Index(index: int) returns (n: Node?<T>)
      requires Valid()
      ensures var p := Position(len, index);
        (p.None? ==> n == null) && (p.Some? ==> n == Nodes[p.value])
    {
      if index < 0 {
        var steps := -index - 1;
        n := tail;
        while steps != 0 && n != null
          invariant 0 <= steps <= -index - 1
          invariant var walked := -index - 1 - steps;
            n == if walked < |Nodes| then Nodes[|Nodes| - 1 - walked] else null
        {
          n := n.prev;
          steps := steps - 1;
        }
      } else {
        var steps := index;
        n := head;
        while steps != 0 && n != null
          invariant 0 <= steps <= index
          invariant var walked := index - steps;
            n == if walked < |Nodes| then Nodes[walked] else null
        {
          n := n.next;
          steps := steps - 1;
        }
      }
    }

    /** The value a copy stores for `v`: the dup method's result when one is set (None when it fails), `v` otherwise. */
    method CopyValue(v: T) returns (r: Option<T>)
      ensures r == DupOne(dup, v)
    {
      if dup.Some? {
        r := dup.value(v);
      } else {
        r := Some(v);
      }
    }

    /**
     * `listDup`: a fresh list with the values copied in order (through the
     * dup method when one is set), or null when duplicating a value fails.
     * The original list is not modified (the method has no modifies clause).
     */
    method Dup() returns (copy: List?<T>)
      requires Valid()
      ensures DupValues(dup, Values).None? ==> copy == null
      ensures DupValues(dup, Values).Some? ==>
        && copy != null && fresh(copy) && copy.Valid()
        && copy.Values == DupValues(dup, Values).value
        && copy.dup == dup && copy.matcher == matcher
        && forall j :: 0 <= j < |copy.Nodes| ==> fresh(copy.Nodes[j])
    {
      copy := new List();
      copy.dup, copy.matcher := dup, matcher;
      var next := head;
      ghost var k := 0;
      while next != null
        invariant k <= |Nodes| && next == if k < |Nodes| then Nodes[k] else null
        invariant fresh(copy) && copy.Valid() && forall j :: 0 <= j < |copy.Nodes| ==> fresh(copy.Nodes[j])
        invariant copy.dup == dup && copy.matcher == matcher
        invariant DupValues(dup, Values[..k]) == Some(copy.Values)
        decreases |Nodes| - k
      {
        var node := next;
        assert node.next == old(Nodes[k].next);
        next := node.next;
        var value := CopyValue(node.value);
        if value.None? {
          assert !DupOne(dup, Values[k]).Some?;
          return null;
        }
        assert Values[..k + 1][..k] == Values[..k];
        assert DupValues(dup, Values[..k + 1]) == Some(copy.Values + [value.value]);
        copy.AddNodeTail(value.value);
        k := k + 1;
      }
      assert Values[..k] == Values;
    }
  }

  /** An iterator (`listIter`): the next node to return and the direction. */
  class ListIter<T(==)> {
    var next: Node?<T>
    var direction: int

    /** The iterator is positioned on `list` (or exhausted). */
    ghost predicate On(list: List<T>)
      reads this, list
    {
      next == null || next in list.Nodes
    }

    /** `listGetIterator`: returns the list from the head, or from the tail for any other direction. */
    constructor (list: List<T>, direction: int)
      requires list.Valid()
      ensures On(list) && this.direction == direction
      ensures Rest(list.Nodes, next, direction) == if direction == StartHead then list.Nodes else Reverse(list.Nodes)
    {
      this.direction := direction;
      next := if direction == StartHead then list.head else list.tail;
      new;
      if list.Nodes != [] {
        list.ValidNoDup();
        IndexOfNoDup(list.Nodes, if direction == StartHead then 0 else |list.Nodes| - 1);
        assert list.Nodes[..|list.Nodes|] == list.Nodes;
      }
    }

    /** `listRewind`: start again from the head. */
    method Rewind(list: List<T>)
      requires list.Valid()
      modifies this
      ensures On(list) && direction == StartHead && Rest(list.Nodes, next, direction) == list.Nodes
    {
      next := list.head;
      direction := StartHead;
      if list.Nodes != [] {
        list.ValidNoDup();
        IndexOfNoDup(list.Nodes, 0);
      }
    }

    /** `listRewindTail`: start again from the tail. */
    method RewindTail(list: List<T>)
      requires list.Valid()
      modifies this
      ensures On(list) && direction == StartTail && Rest(list.Nodes, next, direction) == Reverse(list.Nodes)
    {
      next := list.tail;
      direction := StartTail;
      if list.Nodes != [] {
        list.ValidNoDup();
        IndexOfNoDup(list.Nodes, |list.Nodes| - 1);
        assert list.Nodes[..|list.Nodes|] == list.Nodes;
      }
    }

    /**
     * `listNext`: returns the node the iterator is on and steps to the
     * following one in its direction; the returned node is the first of the
     * nodes still to come and the rest follow in order.
     */
    method Next(ghost list: List<T>) returns (current: Node?<T>)
      requires list.Valid() && On(list)
      modifies this
      ensures On(list) && direction == old(direction)
      ensures current == old(next)
      ensures old(Rest(list.Nodes, next, direction)) ==
        if current == null then [] else [current] + Rest(list.Nodes, next, direction)
    {
      current := next;
      if current != null {
        ghost var i := IndexOf(list.Nodes, current);
        list.ValidNoDup();
        RestStep(list.Nodes, i, direction);
        if i + 1 < |list.Nodes| {
          list.Link(i + 1);
        }
        if i > 0 {
          list.Link(i);
        }
        if direction == StartHead {
          next := current.next;
        } else {
          next := current.prev;
        }
      }
    }
  }

  /** Taking one node out of a list without repeats leaves a list without repeats. */
  lemma RemoveAtNoDup<T>(nodes: seq<T>, j: nat)
    requires NoDup(nodes) && j < |nodes|
    ensures NoDup(nodes[..j] + nodes[j + 1..])
  {
    var after := nodes[..j] + nodes[j + 1..];
    forall p, q | 0 <= p < q < |after| ensures after[p] != after[q] {
      assert after[p] == nodes[if p < j then p else p + 1];
      assert after[q] == nodes[if q < j then q else q + 1];
    }
  }

  /**
   * Deleting the node an iterator has just returned does not disturb the
   * rest of the traversal: the nodes still to come are the same.
   */
  lemma DeleteReturnedKeepsRest<T>(nodes: seq<Node<T>>, j: nat, direction: int)
    requires NoDup(nodes) && j < |nodes|
    ensures var next := Following(nodes, j, direction);
      Rest(nodes[..j] + nodes[j + 1..], next, direction) == Rest(nodes, next, direction)
  {
    var after := nodes[..j] + nodes[j + 1..];
    RemoveAtNoDup(nodes, j);
    if direction == StartHead && j + 1 < |nodes| {
      assert after[j] == nodes[j + 1];
      IndexOfNoDup(nodes, j + 1);
      IndexOfNoDup(after, j);
      assert after[j..] == nodes[j + 1..];
    } else if direction != StartHead && j > 0 {
      assert after[j - 1] == nodes[j - 1];
      IndexOfNoDup(nodes, j - 1);
      IndexOfNoDup(after, j - 1);
      assert after[..j] == nodes[..j];
    }
  }
}
