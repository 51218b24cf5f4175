/**
 * The doubly-linked list container (list.c).
 *
 * A list is a header (`size`, `head`, `tail`) over caller-allocated nodes
 * (`data`, `next`, `previous`); an iterator is a cursor that follows the
 * links from one end. Every C entry point becomes a method of this module
 * that takes possibly-null references, so the NULL-argument paths are part
 * of the model:
 *   - a NULL out-pointer is the argument `outGiven == false`;
 *   - the answer of `calloc` is the argument `allocOk`;
 *   - the opaque `void *data` is a value of the type parameter, and a
 *     possibly-NULL data pointer an `Option`;
 *   - `free` sets a ghost `freed` flag, and no operation accepts a freed object.
 * The ghost sequence `Nodes` is the list's contents from head to tail.
 */
module LinkedList {
  import opened Optional
  import opened ListCodes

  class Node<T> {
    /** fixed when the node is created: no list operation writes it */
    const data: T
    var next: Node?<T>
    var previous: Node?<T>
    ghost var freed: bool

    /** `calloc` of a node followed by the field initialisation of `list_node_new`. */
    constructor (data: T)
      ensures this.data == data && next == null && previous == null && !freed
    {
      this.data := data;
      next := null;
      previous := null;
      freed := false;
    }
  }

  class List<T> {
    var size: nat
    var head: Node?<T>
    var tail: Node?<T>
    ghost var Nodes: seq<Node<T>>
    ghost var freed: bool

    /**
     * The list invariant: the nodes are distinct and live, `head` and `tail`
     * are the first and last of them (both null when empty), every `next`
     * and `previous` link agrees with the order of `Nodes`, and `size`
     * counts them.
     */
    ghost predicate Valid()
      reads this, Nodes
    {
      && !freed
      && size == |Nodes|
      && Distinct(Nodes)
      && (forall i :: 0 <= i < |Nodes| ==> !Nodes[i].freed)
      && (if |Nodes| == 0 then head == null && tail == null
          else && head == Nodes[0] && tail == Nodes[|Nodes| - 1]
               && Nodes[0].previous == null && Nodes[|Nodes| - 1].next == null)
      && (forall i, j :: 0 <= i && j == i + 1 && j < |Nodes| ==>
            Nodes[i].next == Nodes[j] && Nodes[j].previous == Nodes[i])
    }

    /** `calloc` of a list header followed by the initialisation of `list_new`. */
    constructor ()
      ensures Valid() && Nodes == [] && size == 0 && head == null && tail == null
    {
      size := 0;
      head := null;
      tail := null;
      Nodes := [];
      freed := false;
    }
  }

  /** No element occurs twice in `s`. */
  ghost predicate Distinct<X>(s: seq<X>)
  {
    forall i, j :: 0 <= i < j < |s| ==> s[i] != s[j]
  }

  /** The sequence `s` with position `i` taken out. */
  ghost function Without<X>(s: seq<X>, i: nat): (r: seq<X>)
    requires i < |s|
  {
    s[..i] + s[i + 1..]
  }

  /**
   * Dropping position `i` from `s` shifts the later elements down by one and
   * keeps a sequence without repetitions free of repetitions.
   */
  lemma DropAt<X>(s: seq<X>, i: nat)
    requires i < |s|
    ensures |Without(s, i)| == |s| - 1
    ensures forall k :: 0 <= k < |s| - 1 ==> Without(s, i)[k] == s[if k < i then k else k + 1]
    ensures Distinct(s) ==> Distinct(Without(s, i))
  {
  }

  /** The sequence `s` without its first occurrence of `x`. */
  ghost function Delete<X>(s: seq<X>, x: X): (r: seq<X>)
  {
    if s == [] then []
    else if s[0] == x then s[1..]
    else [s[0]] + Delete(s[1..], x)
  }

  /** Deleting the element at position `i` (its first occurrence) closes the gap and keeps the order of the rest. */
  lemma {:induction false} DeleteAt<X>(s: seq<X>, i: nat)
    requires i < |s|
    requires forall j :: 0 <= j < i ==> s[j] != s[i]
    ensures Delete(s, s[i]) == Without(s, i)
  {
    if i > 0 {
      var t := s[1..];
      assert t[i - 1] == s[i];
      assert forall j :: 0 <= j < i - 1 ==> t[j] == s[j + 1];
      DeleteAt(t, i - 1);
      assert t[..i - 1] == s[1..i] && t[i..] == s[i + 1..];
      assert s[..i] == [s[0]] + s[1..i];
      assert Without(s, i) == [s[0]] + Without(t, i - 1);
    }
  }

  /**
   * From a list of distinct elements, Delete removes exactly `x`: one element
   * fewer, `x` gone, every other element kept.
   */
  lemma {:induction false} DeleteRemovesOne<X>(s: seq<X>, x: X)
    requires x in s
    requires Distinct(s)
    ensures |Delete(s, x)| == |s| - 1
    ensures x !in Delete(s, x)
    ensures forall y :: y != x ==> (y in Delete(s, x) <==> y in s)
  {
    if s[0] != x {
      DeleteRemovesOne(s[1..], x);
    } else {
      assert forall k :: 0 <= k < |s[1..]| ==> s[1..][k] == s[k + 1];
    }
  }

  /** The sequence read from its last element to its first. */
  ghost function Backward<X>(s: seq<X>): (r: seq<X>)
    ensures |r| == |s|
  {
    if s == [] then [] else [s[|s| - 1]] + Backward(s[..|s| - 1])
  }

  /** Position `k` of the backward reading is position `|s| - 1 - k` of `s`. */
  lemma {:induction false} BackwardAt<X>(s: seq<X>, k: nat)
    requires k < |s|
    ensures Backward(s)[k] == s[|s| - 1 - k]
  {
    if k > 0 {
      BackwardAt(s[..|s| - 1], k - 1);
    }
  }

  /** The backward reading holds every element as often as `s` does. */
  lemma {:induction false} BackwardSameElements<X>(s: seq<X>)
    ensures multiset(Backward(s)) == multiset(s)
  {
    if s != [] {
      BackwardSameElements(s[..|s| - 1]);
      assert s == s[..|s| - 1] + [s[|s| - 1]];
    }
  }

  /** The order in which an iterator created with `o` visits the nodes `s`. */
  ghost function Traversal<X>(s: seq<X>, o: ListOpt): (r: seq<X>)
  {
    match o
    case OptHead => s
    case OptTail => Backward(s)
  }

  /**
   * A traversal from either end visits every element exactly once: it is a
   * permutation of the list, in list order from the head and in reverse
   * order from the tail.
   */
  lemma TraversalVisitsEachOnce<X>(s: seq<X>, o: ListOpt)
    ensures |Traversal(s, o)| == |s|
    ensures multiset(Traversal(s, o)) == multiset(s)
    ensures forall k :: 0 <= k < |s| ==>
      Traversal(s, o)[k] == if o == OptHead then s[k] else s[|s| - 1 - k]
  {
    if o == OptTail {
      BackwardSameElements(s);
      forall k | 0 <= k < |s| ensures Backward(s)[k] == s[|s| - 1 - k] {
        BackwardAt(s, k);
      }
    }
  }

  class Iterator<T> {
    var current: Node?<T>
    var opt: int
    ghost var list: List<T>
    ghost var pos: nat
    ghost var freed: bool

    /**
     * The iterator invariant: the list it walks is valid and `current` is the
     * node at position `pos` of the traversal order for `opt` (null once
     * every node has been returned).
     */
    ghost predicate Valid()
      reads this, list, list.Nodes
    {
      && !freed
      && list.Valid()
      && (opt == LIST_OPT_HEAD || opt == LIST_OPT_TAIL)
      && pos <= |list.Nodes|
      && current == if pos < |list.Nodes| then Visit()[pos] else null
    }

    /** The nodes in the order this iterator returns them. */
    ghost function Visit(): (r: seq<Node<T>>)
      reads this, list
      requires opt == LIST_OPT_HEAD || opt == LIST_OPT_TAIL
      ensures |r| == |list.Nodes|
    {
      TraversalVisitsEachOnce(list.Nodes, DecodeOpt(opt).value);
      Traversal(list.Nodes, DecodeOpt(opt).value)
    }

    /** `calloc` of an iterator: both fields zero. */
    constructor (ghost l: List<T>)
      ensures current == null && opt == 0 && list == l && pos == 0 && !freed
    {
      current := null;
      opt := 0;
      list := l;
      pos := 0;
      freed := false;
    }
  }

  /** `list_new`: allocates an empty list. */
  method NewList<T>(outGiven: bool, allocOk: bool) returns (rc: ListRc, l: List?<T>)
    ensures !outGiven ==> rc == FailureArguments && l == null
    ensures outGiven && !allocOk ==> rc == FailureMemory && l == null
    ensures outGiven && allocOk ==>
      && rc == Success && l != null && fresh(l) && l.Valid()
      && l.Nodes == [] && l.size == 0 && l.head == null && l.tail == null
  {
    if !outGiven {
      return FailureArguments, null;
    }
    if !allocOk {
      return FailureMemory, null;
    }
    l := new List();
    rc := Success;
  }

  /** `list_destroy`: frees the header only; the nodes stay allocated and keep their links. */
  method DestroyList<T>(l: List?<T>) returns (rc: ListRc)
    requires l != null ==> !l.freed
    modifies l
    ensures rc == if l == null then FailureArguments else Success
    ensures l != null ==> l.freed && l.Nodes == old(l.Nodes)
  {
    if l == null {
      return FailureArguments;
    }
    l.freed := true;
    rc := Success;
  }

  /** `list_size_get`: reports the number of nodes. */
  method SizeGet<T>(l: List?<T>, outGiven: bool) returns (rc: ListRc, size: Option<nat>)
    requires l != null ==> l.Valid()
    ensures rc == if l == null || !outGiven then FailureArguments else Success
    ensures rc == Success ==> l != null && size == Some(|l.Nodes|)
    ensures rc != Success ==> size == None
  {
    if l == null || !outGiven {
      return FailureArguments, None;
    }
    rc, size := Success, Some(l.size);
  }

  /**
   * Linking `n` in front of the chain `s` gives a valid list: the links
   * inside `s` are as before and `n` and `s[0]` point at each other.
   */
  lemma PrependedValid<T>(l: List<T>, s: seq<Node<T>>, n: Node<T>)
    requires s != [] && Distinct(s) && n !in s && !n.freed
    requires forall k :: 0 <= k < |s| ==> !s[k].freed
    requires forall k, k' :: 0 <= k && k' == k + 1 && k' < |s| ==>
      s[k].next == s[k'] && s[k'].previous == s[k]
    requires n.previous == null && n.next == s[0] && s[0].previous == n && s[|s| - 1].next == null
    requires !l.freed && l.Nodes == [n] + s && l.size == |s| + 1 && l.head == n && l.tail == s[|s| - 1]
    ensures l.Valid()
  {
  }

  /**
   * Linking `n` behind the chain `s` gives a valid list: the links inside
   * `s` are as before and `s`'s last node and `n` point at each other.
   */
  lemma AppendedValid<T>(l: List<T>, s: seq<Node<T>>, n: Node<T>)
    requires s != [] && Distinct(s) && n !in s && !n.freed
    requires forall k :: 0 <= k < |s| ==> !s[k].freed
    requires forall k, k' :: 0 <= k && k' == k + 1 && k' < |s| ==>
      s[k].next == s[k'] && s[k'].previous == s[k]
    requires n.next == null && n.previous == s[|s| - 1] && s[|s| - 1].next == n && s[0].previous == null
    requires !l.freed && l.Nodes == s + [n] && l.size == |s| + 1 && l.head == s[0] && l.tail == n
    ensures l.Valid()
  {
  }

  /**
   * `list_insert`: links a node in at the head (prepend) or the tail (append).
   * The node must not already be in the list; when the list is empty its own
   * links must already be null, since that path does not reset them.
   */
  method Insert<T>(l: List?<T>, opt: int, n: Node?<T>) returns (rc: ListRc)
    requires l != null ==> l.Valid()
    requires l != null && n != null && DecodeOpt(opt).Some? ==>
      && n !in l.Nodes && !n.freed
      && (l.Nodes == [] ==> n.next == null && n.previous == null)
    modifies l, n, if l != null then {l.head, l.tail} else {}
    ensures rc == if l == null || n == null || DecodeOpt(opt).None? then FailureArguments else Success
    ensures rc == FailureArguments ==>
      && (l != null ==> unchanged(l) && unchanged(l.Nodes))
      && (n != null ==> unchanged(n))
    ensures rc == Success ==>
      && l != null && n != null && l.Valid()
      && l.size == old(l.size) + 1
      && l.Nodes == (if opt == LIST_OPT_HEAD then [n] + old(l.Nodes) else old(l.Nodes) + [n])
    ensures rc == Success && opt == LIST_OPT_HEAD ==>
      l.head == n && n.previous == null && n.next == old(l.head) && l.tail == (if old(l.tail) == null then n else old(l.tail))
    ensures rc == Success && opt == LIST_OPT_TAIL ==>
      l.tail == n && n.next == null && n.previous == old(l.tail) && l.head == (if old(l.head) == null then n else old(l.head))
  {
    if l == null || (opt != LIST_OPT_HEAD && opt != LIST_OPT_TAIL) || n == null {
      return FailureArguments;
    }

    // the list is empty
    if l.head == null && l.tail == null {
      l.head := n;
      l.tail := n;
      l.size := l.size + 1;
      l.Nodes := [n];
      return Success;
    }

    ghost var s := l.Nodes;
    var tmp := if HeadBitSet(opt) then l.head else l.tail;
    n.next := if HeadBitSet(opt) then tmp else null;
    n.previous := if HeadBitSet(opt) then null else tmp;

    if opt == LIST_OPT_HEAD {
      tmp.previous := n;
      l.head := n;
      l.Nodes := [n] + l.Nodes;
    } else {
      tmp.next := n;
      l.tail := n;
      l.Nodes := l.Nodes + [n];
    }
    l.size := l.size + 1;

    // the links inside the old chain are untouched
    forall k, k' | 0 <= k && k' == k + 1 && k' < |s|
      ensures s[k].next == s[k'] && s[k'].previous == s[k]
    {
      assert s[k] != tmp || opt == LIST_OPT_HEAD;
      assert s[k'] != tmp || opt == LIST_OPT_TAIL;
    }
    if opt == LIST_OPT_HEAD {
      PrependedValid(l, s, n);
    } else {
      AppendedValid(l, s, n);
    }
    rc := Success;
  }

  /** `list_peek`: the node at the chosen end, without changing the list. */
  method Peek<T>(l: List?<T>, opt: int, outGiven: bool) returns (rc: ListRc, n: Node?<T>)
    requires l != null ==> l.Valid()
    ensures l == null || DecodeOpt(opt).None? || !outGiven ==> rc == FailureArguments && n == null
    ensures l != null && DecodeOpt(opt).Some? && outGiven && l.Nodes == [] ==>
      rc == FailureEmpty && n == null
    ensures l != null && DecodeOpt(opt).Some? && outGiven && l.Nodes != [] ==>
      && rc == Success
      && n == (if opt == LIST_OPT_HEAD then l.Nodes[0] else l.Nodes[|l.Nodes| - 1])
  {
    if l == null || (opt != LIST_OPT_HEAD && opt != LIST_OPT_TAIL) || !outGiven {
      return FailureArguments, null;
    }
    if l.head == null && l.tail == null {
      return FailureEmpty, null;
    }
    n := if HeadBitSet(opt) then l.head else l.tail;
    rc := Success;
  }

  /**
   * What the two unlink assignments of `list_remove` leave behind is a valid
   * list of the remaining nodes: the links between nodes other than the
   * removed one `s[i]` are as before, and its neighbours now point at each
   * other.
   */
  lemma UnlinkedValid<T>(l: List<T>, s: seq<Node<T>>, i: nat)
    requires i < |s| && Distinct(s)
    requires forall k :: 0 <= k < |s| ==> !s[k].freed
    requires forall k, k' :: 0 <= k && k' == k + 1 && k' < |s| && k != i && k' != i ==>
      s[k].next == s[k'] && s[k'].previous == s[k]
    requires 0 < i < |s| - 1 ==> s[i - 1].next == s[i + 1] && s[i + 1].previous == s[i - 1]
    requires !l.freed && l.size == |s| - 1 && l.Nodes == Without(s, i)
    requires |s| == 1 ==> l.head == null && l.tail == null
    requires |s| > 1 ==>
      && l.head == l.Nodes[0] && l.Nodes[0].previous == null
      && l.tail == l.Nodes[|s| - 2] && l.Nodes[|s| - 2].next == null
    ensures l.Valid()
  {
    var rest := l.Nodes;
    DropAt(s, i);
    forall k, k' | 0 <= k && k' == k + 1 && k' < |rest|
      ensures rest[k].next == rest[k'] && rest[k'].previous == rest[k]
    {
      // positions in `s` of the two neighbours
      var a := if k < i then k else k + 1;
      var b := if k' < i then k' else k' + 1;
      assert rest[k] == s[a] && rest[k'] == s[b];
    }
    forall k | 0 <= k < |rest|
      ensures !rest[k].freed
    {
      assert rest[k] == s[if k < i then k else k + 1];
    }
  }

  /**
   * `list_remove`: unlinks a node that is in the list. Membership is not
   * checked, and the removed node keeps its (now stale) links.
   */
  method Remove<T>(l: List?<T>, n: Node?<T>) returns (rc: ListRc)
    requires l != null ==> l.Valid()
    requires l != null && n != null ==> n in l.Nodes
    modifies l, if l != null && n != null then {n.previous, n.next} else {}
    ensures rc == if l == null || n == null then FailureArguments else Success
    ensures rc == FailureArguments && l != null ==> unchanged(l)
    ensures rc == Success ==>
      && l != null && n != null && l.Valid()
      && l.Nodes == Delete<Node<T>>(old(l.Nodes), n)
      && l.size == old(l.size) - 1
      && n.next == old(n.next) && n.previous == old(n.previous)
      && (old(l.head) == n ==> l.head == old(n.next))
      && (old(l.tail) == n ==> l.tail == old(n.previous))
  {
    if l == null || n == null {
      return FailureArguments;
    }
    ghost var s := l.Nodes;
    ghost var i :| 0 <= i < |s| && s[i] == n;
    ghost var p, q := n.previous, n.next;
    assert p == if i > 0 then s[i - 1] else null;
    assert q == if i < |s| - 1 then s[i + 1] else null;
    assert n != p && n != q;

    // unlink from list
    if n.previous != null {
      n.previous.next := n.next;
    } else {
      l.head := n.next;
    }
    if n.next != null {
      n.next.previous := n.previous;
    } else {
      l.tail := n.previous;
    }
    l.size := l.size - 1;
    l.Nodes := Without(s, i);
    assert l.size == |l.Nodes|;

    forall k, k' | 0 <= k && k' == k + 1 && k' < |s| && k != i && k' != i
      ensures s[k].next == s[k'] && s[k'].previous == s[k]
    {
      assert s[k] != p && s[k'] != q;
    }
    DropAt(s, i);
    if |s| > 1 {
      assert l.Nodes[0] == s[if i == 0 then 1 else 0];
      assert l.Nodes[|s| - 2] == s[if i == |s| - 1 then |s| - 2 else |s| - 1];
    }
    UnlinkedValid(l, s, i);
    assert l.Nodes == Delete<Node<T>>(s, n) by {
      DeleteAt(s, i);
    }
    rc := Success;
  }

  /** `list_node_new`: allocates an unlinked node holding `data`; NULL data is refused. */
  method NewNode<T>(outGiven: bool, data: Option<T>, allocOk: bool) returns (rc: ListRc, n: Node?<T>)
    ensures !outGiven || data.None? ==> rc == FailureArguments && n == null
    ensures outGiven && data.Some? && !allocOk ==> rc == FailureMemory && n == null
    ensures outGiven && data.Some? && allocOk ==>
      && rc == Success && n != null && fresh(n) && !n.freed
      && n.data == data.value && n.next == null && n.previous == null
  {
    if !outGiven || data.None? {
      return FailureArguments, null;
    }
    if !allocOk {
      return FailureMemory, null;
    }
    n := new Node(data.value);
    rc := Success;
  }

  /**
   * `list_node_destroy`: hands the data to the free callback when there is
   * one (`released`), clears the links and frees the node.
   */
  method DestroyNode<T>(n: Node?<T>, hasFreeCallback: bool) returns (rc: ListRc, released: Option<T>)
    requires n != null ==> !n.freed
    modifies n
    ensures rc == if n == null then FailureArguments else Success
    ensures released == if n != null && hasFreeCallback then Some(n.data) else None
    ensures n != null ==> n.freed && n.next == null && n.previous == null
  {
    if n == null {
      return FailureArguments, None;
    }
    released := if hasFreeCallback then Some(n.data) else None;
    n.previous := null;
    n.next := null;
    n.freed := true;
    rc := Success;
  }

  /** `list_node_data_get`: the data the node was created with. */
  method NodeDataGet<T>(n: Node?<T>, outGiven: bool) returns (rc: ListRc, data: Option<T>)
    requires n != null ==> !n.freed
    ensures rc == if n == null || !outGiven then FailureArguments else Success
    ensures rc == Success ==> n != null && data == Some(n.data)
    ensures rc != Success ==> data == None
  {
    if n == null || !outGiven {
      return FailureArguments, None;
    }
    rc, data := Success, Some(n.data);
  }

  /**
   * `list_iterator_new`: an iterator positioned on the first node of the
   * chosen traversal. On an empty list the iterator is freed again and
   * LIST_FAILURE_EMPTY returned; the out-pointer still holds the freed
   * iterator.
   */
  method NewIterator<T>(l: List?<T>, opt: int, outGiven: bool, allocOk: bool) returns (rc: ListRc, it: Iterator?<T>)
    requires l != null ==> l.Valid()
    ensures l == null || DecodeOpt(opt).None? || !outGiven ==> rc == FailureArguments && it == null
    ensures l != null && DecodeOpt(opt).Some? && outGiven && !allocOk ==> rc == FailureMemory && it == null
    ensures l != null && DecodeOpt(opt).Some? && outGiven && allocOk && l.Nodes == [] ==>
      rc == FailureEmpty && it != null && fresh(it) && it.freed
    ensures l != null && DecodeOpt(opt).Some? && outGiven && allocOk && l.Nodes != [] ==>
      && rc == Success && it != null && fresh(it)
      && it.list == l && it.opt == opt && it.pos == 0 && it.Valid()
  {
    if l == null || (opt != LIST_OPT_HEAD && opt != LIST_OPT_TAIL) || !outGiven {
      return FailureArguments, null;
    }
    if !allocOk {
      return FailureMemory, null;
    }
    it := new Iterator(l);
    var peeked, first := Peek(l, opt, true);
    it.current := first;
    if peeked == FailureEmpty {
      var _ := DestroyIterator(it);
      return FailureEmpty, it;
    }
    it.opt := opt;
    rc := Success;
  }

  /** `list_iterator_destroy`: frees the iterator. */
  method DestroyIterator<T>(it: Iterator?<T>) returns (rc: ListRc)
    requires it != null ==> !it.freed
    modifies it
    ensures rc == if it == null then FailureArguments else Success
    ensures it != null ==> it.freed && it.current == old(it.current) && it.pos == old(it.pos)
  {
    if it == null {
      return FailureArguments;
    }
    it.freed := true;
    rc := Success;
  }

  /**
   * `list_iterator_next`: returns the node under the cursor and moves the
   * cursor along `next` (from the head) or `previous` (from the tail); once
   * past the last node it returns LIST_ITERATOR_FAILURE_END with NULL.
   */
  method IteratorNext<T>(it: Iterator?<T>, outGiven: bool) returns (rc: ListRc, n: Node?<T>)
    requires it != null ==> it.Valid()
    modifies it
    ensures it == null || !outGiven ==> rc == FailureArguments && n == null && (it != null ==> unchanged(it))
    ensures it != null && outGiven ==> it.Valid() && it.list == old(it.list) && it.opt == old(it.opt)
    ensures it != null && outGiven && old(it.pos) < |it.list.Nodes| ==>
      rc == Success && n == it.Visit()[old(it.pos)] && it.pos == old(it.pos) + 1
    ensures it != null && outGiven && old(it.pos) == |it.list.Nodes| ==>
      rc == IteratorFailureEnd && n == null && it.pos == old(it.pos)
  {
    if it == null || !outGiven {
      return FailureArguments, null;
    }
    n := it.current;
    if n == null {
      return IteratorFailureEnd, null;
    }
    ghost var nodes := it.list.Nodes;
    ghost var k := it.pos;
    TraversalVisitsEachOnce(nodes, DecodeOpt(it.opt).value);
    ghost var order := it.Visit();
    assert n == order[k];
    // the link followed leads to the next node of the traversal
    if it.opt == LIST_OPT_HEAD {
      assert n == nodes[k];
      if k + 1 < |nodes| {
        assert n.next == nodes[k + 1];
      }
    } else {
      var j := |nodes| - 1 - k;
      assert n == nodes[j];
      if j > 0 {
        assert n.previous == nodes[j - 1];
      }
    }
    it.current := if it.opt == LIST_OPT_HEAD then n.next else n.previous;
    it.pos := it.pos + 1;
    assert it.Visit() == order;
    rc := Success;
  }
}
