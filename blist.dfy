/**
  The intrusive doubly linked list macros of z_btnmgr.h (LIST_INIT, LIST_ADD,
  LIST_INSERT, LIST_LINK, LIST_DEL) on nodes addressed by index: node k's
  PreNode and NextNode are nodes[k].pre and nodes[k].next. A `Ring` is one list
  with its head node; `Contents` is the sequence of nodes that forward
  traversal from the head visits, which is how the manager sees its lists.
*/
module BList {

  /** One z_blist_t: the indices of its PreNode and NextNode. */
  datatype Node = Node(pre: nat, next: nat)

  /** The node before the k-th element of list c: the head for the first one. */
  function Prev(head: nat, c: seq<nat>, k: nat): nat
    requires k <= |c|
  {
    if k == 0 then head else c[k - 1]
  }

  /** The last node of the ring: the head itself when the list is empty. */
  function LastOf(head: nat, c: seq<nat>): nat
  {
    if c == [] then head else c[|c| - 1]
  }

  /** Elements are distinct nodes other than the head. */
  ghost predicate WellFormed(n: nat, head: nat, c: seq<nat>)
  {
    && head < n
    && (forall k :: 0 <= k < |c| ==> c[k] < n && c[k] != head)
    && (forall i, j :: 0 <= i < j < |c| ==> c[i] != c[j])
  }

  /** The k-th element and the node before it point at each other. */
  ghost predicate LinkAt(ns: seq<Node>, head: nat, c: seq<nat>, k: nat)
    requires WellFormed(|ns|, head, c) && k < |c|
  {
    ns[Prev(head, c, k)].next == c[k] && ns[c[k]].pre == Prev(head, c, k)
  }

  /** The nodes `ns` link head, c[0], ..., c[|c|-1] into a ring, both ways. */
  ghost predicate Linked(ns: seq<Node>, head: nat, c: seq<nat>)
  {
    && WellFormed(|ns|, head, c)
    && (forall k :: 0 <= k < |c| ==> LinkAt(ns, head, c, k))
    && ns[LastOf(head, c)].next == head
    && ns[head].pre == LastOf(head, c)
  }

  /** Whatever follows the head is the first element, or the head when the list is empty. */
  lemma HeadNext(ns: seq<Node>, head: nat, c: seq<nat>)
    requires Linked(ns, head, c)
    ensures ns[head].next == if c == [] then head else c[0]
  {
    if c != [] {
      assert LinkAt(ns, head, c, 0);
    }
  }

  /** Following NextNode from the node before the k-th element leads to it, or back to the head after the last. */
  lemma NextOfPrev(ns: seq<Node>, head: nat, c: seq<nat>, k: nat)
    requires Linked(ns, head, c) && k <= |c|
    ensures ns[Prev(head, c, k)].next == if k < |c| then c[k] else head
  {
    if k < |c| {
      assert LinkAt(ns, head, c, k);
    }
  }

  /** The effect of LIST_ADD(x, head) on the node values. */
  function AddNodes(ns: seq<Node>, head: nat, x: nat): seq<Node>
    requires head < |ns| && x < |ns| && ns[head].pre < |ns|
  {
    var t := ns[head].pre;
    var ns1 := ns[x := Node(t, head)];
    var ns2 := ns1[t := ns1[t].(next := x)];
    ns2[head := ns2[head].(pre := x)]
  }

  lemma {:induction false} AddLinked(ns: seq<Node>, head: nat, c: seq<nat>, x: nat)
    requires Linked(ns, head, c) && x < |ns| && x != head && x !in c
    ensures Linked(AddNodes(ns, head, x), head, c + [x])
  {
    var ns' := AddNodes(ns, head, x);
    var c' := c + [x];
    var t := LastOf(head, c);
    assert LastOf(head, c') == x;
    assert WellFormed(|ns'|, head, c');
    forall k | 0 <= k < |c'|
      ensures LinkAt(ns', head, c', k)
    {
      if k < |c| {
        assert LinkAt(ns, head, c, k);
        var p := Prev(head, c, k);
        assert Prev(head, c', k) == p && c'[k] == c[k];
        assert p != t && p != x && c[k] != x && c[k] != head;
        assert ns'[p].next == ns[p].next && ns'[c[k]].pre == ns[c[k]].pre;
      } else {
        assert Prev(head, c', k) == t;
      }
    }
  }

  /** The effect of LIST_INSERT(x, head) on the node values. */
  function InsertNodes(ns: seq<Node>, head: nat, x: nat): seq<Node>
    requires head < |ns| && x < |ns| && ns[head].next < |ns|
  {
    var f := ns[head].next;
    var ns1 := ns[x := Node(head, f)];
    var ns2 := ns1[f := ns1[f].(pre := x)];
    ns2[head := ns2[head].(next := x)]
  }

  lemma {:induction false} InsertLinked(ns: seq<Node>, head: nat, c: seq<nat>, x: nat)
    requires Linked(ns, head, c) && x < |ns| && x != head && x !in c
    ensures ns[head].next < |ns|
    ensures Linked(InsertNodes(ns, head, x), head, [x] + c)
  {
    HeadNext(ns, head, c);
    var ns' := InsertNodes(ns, head, x);
    var c' := [x] + c;
    var f := ns[head].next;
    assert WellFormed(|ns'|, head, c');
    forall k | 0 <= k < |c'|
      ensures LinkAt(ns', head, c', k)
    {
      if k >= 2 {
        assert LinkAt(ns, head, c, k - 1);
        var p := Prev(head, c, k - 1);
        assert Prev(head, c', k) == p && c'[k] == c[k - 1];
        assert p != head && p != x && c[k - 1] != x && c[k - 1] != head && c[k - 1] != f;
        assert ns'[p].next == ns[p].next && ns'[c[k - 1]].pre == ns[c[k - 1]].pre;
      } else if k == 1 {
        assert LinkAt(ns, head, c, 0);
        assert Prev(head, c', k) == x && c'[k] == c[0] == f;
      }
    }
    if c != [] {
      assert LastOf(head, c') == LastOf(head, c);
    }
  }

  /** The effect of LIST_LINK(a, b) on the node values. */
  function LinkNodes(ns: seq<Node>, a: nat, b: nat): (r: seq<Node>)
    requires a < |ns| && b < |ns|
    ensures |r| == |ns|
  {
    var ns1 := ns[a := ns[a].(next := b)];
    ns1[b := ns1[b].(pre := a)]
  }

  /** The effect of LIST_DEL(m) on the node values: LIST_LINK of m's neighbours, then m self-linked. */
  function DelNodes(ns: seq<Node>, m: nat): seq<Node>
    requires m < |ns| && ns[m].pre < |ns| && ns[m].next < |ns|
  {
    LinkNodes(ns, ns[m].pre, ns[m].next)[m := Node(m, m)]
  }

  /** The neighbours of the i-th element are the nodes before and after it in the ring. */
  lemma Neighbours(ns: seq<Node>, head: nat, c: seq<nat>, i: nat)
    requires Linked(ns, head, c) && i < |c|
    ensures ns[c[i]].pre == Prev(head, c, i)
    ensures ns[c[i]].next == if i + 1 < |c| then c[i + 1] else head
  {
    assert LinkAt(ns, head, c, i);
    if i + 1 < |c| {
      assert LinkAt(ns, head, c, i + 1);
    }
  }

  /** c with its i-th element removed. */
  function Without(c: seq<nat>, i: nat): (r: seq<nat>)
    requires i < |c|
    ensures |r| == |c| - 1
    ensures forall k :: 0 <= k < |r| ==> r[k] == if k < i then c[k] else c[k + 1]
  {
    c[..i] + c[i + 1..]
  }

  lemma DelWellFormed(n: nat, head: nat, c: seq<nat>, i: nat)
    requires WellFormed(n, head, c) && i < |c|
    ensures WellFormed(n, head, Without(c, i))
  {
    var c' := Without(c, i);
    forall a, b | 0 <= a < b < |c'|
      ensures c'[a] != c'[b]
    {
      var a' := if a < i then a else a + 1;
      var b' := if b < i then b else b + 1;
      assert c'[a] == c[a'] && c'[b] == c[b'] && a' < b';
    }
  }

  /** After LIST_DEL of the i-th element, the k-th remaining element is still linked to its predecessor. */
  lemma DelLinkAt(ns: seq<Node>, head: nat, c: seq<nat>, i: nat, k: nat)
    requires Linked(ns, head, c) && i < |c| && k < |c| - 1
    requires ns[c[i]].pre < |ns| && ns[c[i]].next < |ns|
    requires WellFormed(|ns|, head, Without(c, i))
    ensures LinkAt(DelNodes(ns, c[i]), head, Without(c, i), k)
  {
    Neighbours(ns, head, c, i);
    var m := c[i];
    var ns' := DelNodes(ns, m);
    var c' := Without(c, i);
    var a := Prev(head, c, i);
    if k < i {
      assert LinkAt(ns, head, c, k);
      var p := Prev(head, c, k);
      assert Prev(head, c', k) == p && c'[k] == c[k];
      assert p != a && p != m && c[k] != m && c[k] != ns[m].next;
      assert ns'[p].next == ns[p].next && ns'[c[k]].pre == ns[c[k]].pre;
    } else if k == i {
      assert Prev(head, c', k) == a && c'[k] == c[i + 1];
      assert a != m && c[i + 1] != m && a != c[i + 1];
    } else {
      assert LinkAt(ns, head, c, k + 1);
      var p := c[k];
      assert Prev(head, c', k) == p && c'[k] == c[k + 1];
      assert p != a && p != m && c[k + 1] != m && c[k + 1] != a && c[k + 1] != c[i + 1];
      assert ns'[p].next == ns[p].next && ns'[c[k + 1]].pre == ns[c[k + 1]].pre;
    }
  }

  lemma DelLinked(ns: seq<Node>, head: nat, c: seq<nat>, i: nat)
    requires Linked(ns, head, c) && i < |c|
    ensures ns[c[i]].pre < |ns| && ns[c[i]].next < |ns|
    ensures Linked(DelNodes(ns, c[i]), head, Without(c, i))
  {
    Neighbours(ns, head, c, i);
    var m := c[i];
    var ns' := DelNodes(ns, m);
    var c' := Without(c, i);
    DelWellFormed(|ns|, head, c, i);
    forall k | 0 <= k < |c'|
      ensures LinkAt(ns', head, c', k)
    {
      DelLinkAt(ns, head, c, i, k);
    }
    var a := Prev(head, c, i);
    if i + 1 < |c| {
      var last := c[|c| - 1];
      assert LastOf(head, c') == last && last != m && last != a;
      assert head != c[i + 1];
    } else {
      assert LastOf(head, c') == a && a != m;
    }
  }

  /** Every PreNode and NextNode points at a node of the array. */
  ghost predicate Closed(ns: seq<Node>)
  {
    forall j :: 0 <= j < |ns| ==> ns[j].pre < |ns| && ns[j].next < |ns|
  }

  class Ring {
    var nodes: array<Node>
    const head: nat
    ghost var Contents: seq<nat>

    ghost predicate Valid()
      reads this, nodes
    {
      Closed(nodes[..]) && Linked(nodes[..], head, Contents)
    }

    /** A node array of `size` nodes whose node `h` is an initialised, empty list head. */
    constructor (size: nat, h: nat)
      requires h < size
      ensures Valid() && fresh(nodes) && nodes.Length == size
      ensures head == h && Contents == []
    {
      nodes := new Node[size](_ => Node(h, h));
      head := h;
      Contents := [];
    }

    /**
      LIST_INIT(x): x links to itself. For the head this empties the list; any
      other node must not be in the list, and the list is unchanged.
    */
    method Init(x: nat)
      requires Valid() && x < nodes.Length && (x == head || x !in Contents)
      modifies this, nodes
      ensures Valid() && nodes == old(nodes)
      ensures nodes[..] == old(nodes[..])[x := Node(x, x)]
      ensures Contents == if x == head then [] else old(Contents)
    {
      ghost var ns := nodes[..];
      nodes[x] := Node(x, x);
      if x == head {
        Contents := [];
      } else {
        forall k | 0 <= k < |Contents|
          ensures LinkAt(nodes[..], head, Contents, k)
        {
          assert LinkAt(ns, head, Contents, k);
          assert Contents[k] != x && Prev(head, Contents, k) != x;
        }
        assert LastOf(head, Contents) != x;
      }
    }

    /**
      LIST_ADD(x, head): x is linked in just before the head, so it becomes the
      last element. Only x, the head's PreNode and the old last node change.
    */
    method Add(x: nat)
      requires Valid() && x < nodes.Length && x != head && x !in Contents
      modifies this, nodes
      ensures Valid() && nodes == old(nodes)
      ensures Contents == old(Contents) + [x]
      ensures nodes[..] == AddNodes(old(nodes[..]), head, x)
    {
      ghost var ns := nodes[..];
      AddLinked(ns, head, Contents, x);
      var tail := nodes[head].pre;
      nodes[x] := Node(tail, head);
      nodes[tail] := nodes[tail].(next := x);
      nodes[head] := nodes[head].(pre := x);
      Contents := Contents + [x];
      assert nodes[..] == AddNodes(ns, head, x);
    }

    /**
      LIST_INSERT(x, head): x is linked in just after the head, so it becomes
      the first element and the others keep their order.
    */
    method Insert(x: nat)
      requires Valid() && x < nodes.Length && x != head && x !in Contents
      modifies this, nodes
      ensures Valid() && nodes == old(nodes)
      ensures Contents == [x] + old(Contents)
      ensures nodes[..] == InsertNodes(old(nodes[..]), head, x)
    {
      ghost var ns := nodes[..];
      InsertLinked(ns, head, Contents, x);
      var succ := nodes[head].next;
      nodes[x] := Node(head, succ);
      nodes[succ] := nodes[succ].(pre := x);
      nodes[head] := nodes[head].(next := x);
      Contents := [x] + Contents;
      assert nodes[..] == InsertNodes(ns, head, x);
    }

    /** LIST_LINK(a, b): a's NextNode := b, then b's PreNode := a. */
    method Link(a: nat, b: nat)
      requires a < nodes.Length && b < nodes.Length
      modifies nodes
      ensures nodes[..] == LinkNodes(old(nodes[..]), a, b)
    {
      nodes[a] := nodes[a].(next := b);
      nodes[b] := nodes[b].(pre := a);
    }

    /**
      LIST_DEL(m): m's neighbours are linked to each other, which removes m from
      the list, and m is left linked to itself.
    */
    method Del(m: nat)
      requires Valid() && m in Contents
      modifies this, nodes
      ensures Valid() && nodes == old(nodes)
      ensures Contents == Without(old(Contents), IndexOf(old(Contents), m))
      ensures nodes[..] == DelNodes(old(nodes[..]), m)
    {
      ghost var ns := nodes[..];
      ghost var i := IndexOf(Contents, m);
      DelLinked(ns, head, Contents, i);
      Link(nodes[m].pre, nodes[m].next);
      nodes[m] := Node(m, m);
      Contents := Without(Contents, i);
      assert nodes[..] == DelNodes(ns, m);
    }

    /**
      The traversal of z_btnmgr_tick and z_btnmgr_groupProc: follow NextNode
      from the head until it leads back to the head. It visits exactly the
      list's elements, in order.
    */
    method Walk() returns (order: seq<nat>)
      requires Valid()
      ensures order == Contents
    {
      ghost var ns := nodes[..];
      var p := head;
      order := [];
      while nodes[p].next != head
        invariant |order| <= |Contents| && order == Contents[..|order|]
        invariant p == Prev(head, Contents, |order|)
        decreases |Contents| - |order|
      {
        NextOfPrev(ns, head, Contents, |order|);
        p := nodes[p].next;
        order := order + [p];
        assert order == Contents[..|order|];
      }
      NextOfPrev(ns, head, Contents, |order|);
    }
  }

  /** The position of x in s. */
  function IndexOf(s: seq<nat>, x: nat): (i: nat)
    requires x in s
    ensures i < |s| && s[i] == x
    ensures forall j :: 0 <= j < i ==> s[j] != x
  {
    if s[0] == x then 0 else 1 + IndexOf(s[1..], x)
  }
}
