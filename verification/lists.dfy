/** The intrusive circular doubly linked lists (list.h) on the heap. A list is
    named by its head node; its contents are the other nodes, in next order. */
module Lists {

  class ListHead {
    var prev: ListHead?
    var next: ListHead?

    constructor ()
      ensures Ring(this, [])
    {
      new;
      InitListHead(this);
    }
  }

  ghost predicate Distinct(s: seq<ListHead>) {
    forall i, j :: 0 <= i < j < |s| ==> s[i] != s[j]
  }

  /** Following next from c[0] visits c in order and returns to c[0]; prev is
      the inverse of next all the way round. */
  ghost predicate Cycle(c: seq<ListHead>)
    reads c
  {
    && Distinct(c)
    && (forall i {:trigger c[i].next} :: 0 <= i < |c| - 1 ==> c[i].next == c[i + 1])
    && (forall i {:trigger c[i].prev} :: 1 <= i < |c| ==> c[i].prev == c[i - 1])
    && (|c| > 0 ==> c[|c| - 1].next == c[0] && c[0].prev == c[|c| - 1])
  }

  function Succ<T>(c: seq<T>, k: nat): T
    requires k < |c|
  {
    if k + 1 < |c| then c[k + 1] else c[0]
  }

  /** `head` heads a list with contents `s`. */
  ghost predicate Ring(head: ListHead, s: seq<ListHead>)
    reads head, s
  {
    Cycle([head] + s)
  }

  /** prev and next are inverse at every node of a list. */
  lemma RingInverse(head: ListHead, s: seq<ListHead>, x: ListHead)
    requires Ring(head, s) && x in [head] + s
    ensures x.next != null && x.prev != null && x.next.prev == x && x.prev.next == x
  {
    var c := [head] + s;
    var i :| 0 <= i < |c| && c[i] == x;
    assert c[i].next == Succ(c, i) && c[i].prev == if i == 0 then c[|c| - 1] else c[i - 1];
  }

  lemma Neighbours(head: ListHead, s: seq<ListHead>, k: nat)
    requires Ring(head, s) && k < |s|
    ensures s[k].next == Succ([head] + s, k + 1) && s[k].prev == ([head] + s)[k]
    ensures s[k].next in [head] + s && s[k].prev in [head] + s
  {
    assert ([head] + s)[k + 1] == s[k];
  }

  lemma HeadNeighbours(head: ListHead, s: seq<ListHead>)
    requires Ring(head, s)
    ensures head.next == Succ([head] + s, 0) && head.prev == ([head] + s)[|s|]
    ensures head.next in [head] + s && head.prev in [head] + s
  {
    assert ([head] + s)[0] == head;
  }

  method InitListHead(list: ListHead)
    modifies list
    ensures Ring(list, [])
  {
    list.next := list;
    list.prev := list;
  }

  lemma DistinctInsert(c: seq<ListHead>, k: nat, x: ListHead)
    requires Distinct(c) && x !in c && k <= |c|
    ensures Distinct(c[..k] + [x] + c[k..])
  {
  }

  lemma DistinctRemove(c: seq<ListHead>, k: nat)
    requires Distinct(c) && k < |c|
    ensures Distinct(c[..k] + c[k + 1..])
    ensures c[k] !in c[..k] + c[k + 1..]
  {
  }

  /** __list_add between neighbours c[k] and its successor. */
  method Insert(node: ListHead, prev: ListHead, next: ListHead, ghost c: seq<ListHead>, ghost k: nat)
    requires Cycle(c) && node !in c && k < |c| && c[k] == prev && Succ(c, k) == next
    modifies node, prev, next
    ensures Cycle(c[..k + 1] + [node] + c[k + 1..])
  {
    DistinctInsert(c, k + 1, node);
    next.prev := node;
    node.next := next;
    node.prev := prev;
    prev.next := node;
  }

  method ListAdd(node: ListHead, head: ListHead, ghost s: seq<ListHead>)
    requires Ring(head, s) && node !in [head] + s
    modifies node, head, head.next
    ensures Ring(head, [node] + s)
  {
    ghost var c := [head] + s;
    assert c[0].next == Succ(c, 0);
    Insert(node, head, head.next, c, 0);
    assert c[..1] + [node] + c[1..] == [head] + ([node] + s);
  }

  method ListAddTail(node: ListHead, head: ListHead, ghost s: seq<ListHead>)
    requires Ring(head, s) && node !in [head] + s
    modifies node, head, head.prev
    ensures Ring(head, s + [node])
  {
    ghost var c := [head] + s;
    Insert(node, head.prev, head, c, |s|);
    assert c[..|s| + 1] + [node] + c[|s| + 1..] == [head] + (s + [node]);
  }

  /** __list_del_entry: unlink c[k], whose own pointers are kept. */
  method Unlink(entry: ListHead, ghost c: seq<ListHead>, ghost k: nat)
    requires Cycle(c) && 0 < k < |c| && c[k] == entry
    modifies entry.prev, entry.next
    ensures Cycle(c[..k] + c[k + 1..])
  {
    DistinctRemove(c, k);
    assert entry.prev == c[k - 1] && entry.next == Succ(c, k);
    var prev, next := entry.prev, entry.next;
    next.prev := prev;
    prev.next := next;
  }

  method ListDel(entry: ListHead, ghost head: ListHead, ghost s: seq<ListHead>, ghost k: nat)
    requires Ring(head, s) && k < |s| && s[k] == entry
    modifies entry, entry.prev, entry.next
    ensures Ring(head, s[..k] + s[k + 1..])
    ensures entry.next == null && entry.prev == null
  {
    Detach(entry, head, s, k);
    entry.next := null;
    entry.prev := null;
  }

  method Detach(entry: ListHead, ghost head: ListHead, ghost s: seq<ListHead>, ghost k: nat)
    requires Ring(head, s) && k < |s| && s[k] == entry
    modifies entry.prev, entry.next
    ensures Ring(head, s[..k] + s[k + 1..]) && entry !in [head] + (s[..k] + s[k + 1..])
  {
    ghost var c := [head] + s;
    DistinctRemove(c, k + 1);
    Unlink(entry, c, k + 1);
    assert c[..k + 1] + c[k + 2..] == [head] + (s[..k] + s[k + 1..]);
  }

  /** The two lists have no node in common. */
  ghost predicate Apart(h: ListHead, s: seq<ListHead>, head: ListHead, t: seq<ListHead>) {
    forall x :: x in [h] + s ==> x !in [head] + t
  }

  /** list_move between two lists, or to the front of its own. */
  method ListMove(entry: ListHead, head: ListHead, ghost h: ListHead, ghost s: seq<ListHead>, ghost k: nat,
                  ghost t: seq<ListHead>)
    requires Ring(h, s) && k < |s| && s[k] == entry && Ring(head, t)
    requires (h == head && s == t) || Apart(h, s, head, t)
    modifies entry, entry.prev, entry.next, head, head.next
    ensures h != head ==> Ring(h, s[..k] + s[k + 1..]) && Ring(head, [entry] + t)
    ensures h == head ==> Ring(head, [entry] + (s[..k] + s[k + 1..]))
  {
    Neighbours(h, s, k);
    Detach(entry, h, s, k);
    ghost var rest := s[..k] + s[k + 1..];
    assert forall x :: x in [h] + rest ==> x in [h] + s;
    HeadNeighbours(head, if h == head then rest else t);
    ListAdd(entry, head, if h == head then rest else t);
  }

  /** list_move_tail */
  method ListMoveTail(entry: ListHead, head: ListHead, ghost h: ListHead, ghost s: seq<ListHead>, ghost k: nat,
                      ghost t: seq<ListHead>)
    requires Ring(h, s) && k < |s| && s[k] == entry && Ring(head, t)
    requires (h == head && s == t) || Apart(h, s, head, t)
    modifies entry, entry.prev, entry.next, head, head.prev
    ensures h != head ==> Ring(h, s[..k] + s[k + 1..]) && Ring(head, t + [entry])
    ensures h == head ==> Ring(head, s[..k] + s[k + 1..] + [entry])
  {
    Neighbours(h, s, k);
    Detach(entry, h, s, k);
    ghost var rest := s[..k] + s[k + 1..];
    assert forall x :: x in [h] + rest ==> x in [h] + s;
    HeadNeighbours(head, if h == head then rest else t);
    ListAddTail(entry, head, if h == head then rest else t);
  }

  lemma DistinctSplice(c: seq<ListHead>, k: nat, s: seq<ListHead>)
    requires Distinct(c) && Distinct(s) && k <= |c| && forall x :: x in s ==> x !in c
    ensures Distinct(c[..k] + s + c[k..])
  {
    var r := c[..k] + s + c[k..];
    forall i, j | 0 <= i < j < |r| ensures r[i] != r[j] {
      assert forall a | a in [i, j] ::
          if k <= a < k + |s| then r[a] == s[a - k] && s[a - k] in s
          else r[a] == c[if a < k then a else a - |s|] && r[a] in c;
    }
  }

  /** The links among the contents of a list, without its head. */
  lemma Inner(list: ListHead, s: seq<ListHead>)
    requires Ring(list, s) && s != []
    ensures Distinct(s) && list.next == s[0] && list.prev == s[|s| - 1]
    ensures forall a :: 0 <= a < |s| - 1 ==> s[a].next == s[a + 1] && s[a + 1].prev == s[a]
  {
    var l := [list] + s;
    assert l[0].next == l[1] && l[0].prev == l[|s|];
    forall a | 0 <= a < |s| - 1 ensures s[a].next == s[a + 1] && s[a + 1].prev == s[a] {
      assert l[a + 1].next == l[a + 2] && l[a + 2].prev == l[a + 1];
    }
    forall i, j | 0 <= i < j < |s| ensures s[i] != s[j] {
      assert l[i + 1] == s[i] && l[j + 1] == s[j];
    }
  }

  lemma SplicedCycle(c: seq<ListHead>, k: nat, s: seq<ListHead>)
    requires k < |c| && s != [] && Distinct(c) && Distinct(s) && forall x :: x in s ==> x !in c
    requires forall a :: 0 <= a < |c| - 1 && a != k ==> c[a].next == c[a + 1] && c[a + 1].prev == c[a]
    requires forall a :: 0 <= a < |s| - 1 ==> s[a].next == s[a + 1] && s[a + 1].prev == s[a]
    requires c[k].next == s[0] && s[0].prev == c[k]
    requires s[|s| - 1].next == Succ(c, k) && Succ(c, k).prev == s[|s| - 1]
    requires k < |c| - 1 ==> c[|c| - 1].next == c[0] && c[0].prev == c[|c| - 1]
    ensures Cycle(c[..k + 1] + s + c[k + 1..])
  {
    DistinctSplice(c, k + 1, s);
    var r := c[..k + 1] + s + c[k + 1..];
    forall i | 0 <= i < |r| - 1 ensures r[i].next == r[i + 1] && r[i + 1].prev == r[i] {
      if i < k {
        assert r[i] == c[i] && r[i + 1] == c[i + 1];
      } else if i > k + |s| {
        var a := i - |s|;
        assert r[i] == c[a] && r[i + 1] == c[a + 1];
      } else if k < i < k + |s| {
        var a := i - k - 1;
        assert r[i] == s[a] && r[i + 1] == s[a + 1];
      }
    }
  }

  /** __list_splice: the nodes of `list` go between c[k] and its successor. */
  method Splice(list: ListHead, prev: ListHead, next: ListHead, ghost s: seq<ListHead>, ghost c: seq<ListHead>,
                ghost k: nat)
    requires Ring(list, s) && s != [] && Cycle(c) && forall x :: x in [list] + s ==> x !in c
    requires k < |c| && c[k] == prev && Succ(c, k) == next
    modifies list.next, list.prev, prev, next
    ensures Cycle(c[..k + 1] + s + c[k + 1..])
  {
    Inner(list, s);
    var first, last := list.next, list.prev;
    assert forall x :: x in s ==> x in [list] + s;
    assert first !in c && last !in c && prev in c && next in c;
    first.prev := prev;
    prev.next := first;
    last.next := next;
    next.prev := last;
    forall a | 0 <= a < |c| - 1 && a != k ensures c[a].next == c[a + 1] && c[a + 1].prev == c[a] {
      assert old(c[a].next) == c[a + 1] && old(c[a + 1].prev) == c[a];
      assert c[a] != c[k] && c[a + 1] != Succ(c, k);
    }
    SplicedCycle(c, k, s);
  }

  lemma NotContained(list: ListHead, s: seq<ListHead>)
    requires Ring(list, s)
    ensures list !in s
  {
    assert forall i :: 0 <= i < |s| ==> ([list] + s)[i + 1] == s[i] && ([list] + s)[0] == list;
  }

  /** list_splice_init */
  method ListSpliceInit(list: ListHead, head: ListHead, ghost s: seq<ListHead>, ghost t: seq<ListHead>)
    requires Ring(list, s) && Ring(head, t) && Apart(list, s, head, t)
    modifies list, list.next, list.prev, head, head.next
    ensures Ring(list, []) && Ring(head, s + t)
  {
    ghost var c := [head] + t;
    NotContained(list, s);
    assert list in [list] + s && list !in [head] + t;
    var empty := ListEmpty(list, s);
    if !empty {
      assert c[0].next == Succ(c, 0);
      Splice(list, head, head.next, s, c, 0);
      assert c[..1] + s + c[1..] == [head] + (s + t);
      InitListHead(list);
    } else {
      assert s + t == t;
    }
  }

  /** list_splice_tail_init */
  method ListSpliceTailInit(list: ListHead, head: ListHead, ghost s: seq<ListHead>, ghost t: seq<ListHead>)
    requires Ring(list, s) && Ring(head, t) && Apart(list, s, head, t)
    modifies list, list.next, list.prev, head, head.prev
    ensures Ring(list, []) && Ring(head, t + s)
  {
    ghost var c := [head] + t;
    NotContained(list, s);
    assert list in [list] + s && list !in [head] + t;
    var empty := ListEmpty(list, s);
    if !empty {
      Splice(list, head.prev, head, s, c, |t|);
      assert c[..|t| + 1] + s + c[|t| + 1..] == [head] + (t + s);
      InitListHead(list);
    } else {
      assert t + s == t;
    }
  }

  /** list_for_each_entry: the cursor visits exactly the contents, in order. */
  method Walk(head: ListHead, ghost s: seq<ListHead>) returns (visited: seq<ListHead>)
    requires Ring(head, s)
    ensures visited == s
  {
    ghost var c := [head] + s;
    visited := [];
    assert c[0].next == Succ(c, 0);
    var pos: ListHead := head.next;
    while pos != head
      invariant |visited| <= |s| && visited == s[..|visited|]
      invariant pos == Succ(c, |visited|)
      decreases |s| - |visited|
    {
      visited := visited + [pos];
      assert c[|visited|] == pos && c[|visited|].next == Succ(c, |visited|);
      pos := pos.next;
    }
  }

  lemma DistinctSplit(head: ListHead, s: seq<ListHead>, k: nat)
    requires Distinct([head] + s) && k <= |s|
    ensures forall x :: x in s[..k] ==> x !in [head] + s[k..]
  {
    var c := [head] + s;
    forall i, j | 0 <= i < k && k <= j < |s| ensures s[i] != s[j] && s[i] != head {
      assert c[i + 1] == s[i] && c[j + 1] == s[j] && c[0] == head;
    }
    forall i | 0 <= i < k ensures s[i] != head {
      assert c[i + 1] == s[i] && c[0] == head;
    }
  }

  /** list_for_each_safe with a body that deletes its cursor (clear_modules and
      the symbol table): every node is unlinked and the list ends empty. */
  method Drain(head: ListHead, ghost s: seq<ListHead>)
    requires Ring(head, s)
    modifies head, s
    ensures Ring(head, [])
    ensures forall x :: x in s ==> x.next == null && x.prev == null
  {
    ghost var k := 0;
    RingInverse(head, s, head);
    assert ([head] + s)[0].next == Succ([head] + s, 0);
    var pos: ListHead := head.next;
    RingInverse(head, s, pos);
    var n: ListHead := pos.next;
    while pos != head
      invariant 0 <= k <= |s| && Ring(head, s[k..])
      invariant pos == (if k < |s| then s[k] else head)
      invariant n == pos.next
      invariant forall x :: x in s[..k] ==> x.next == null && x.prev == null
      decreases |s| - k
    {
      Neighbours(head, s[k..], 0);
      DistinctSplit(head, s, k);
      ListDel(pos, head, s[k..], 0);
      assert s[k..][..0] + s[k..][1..] == s[k + 1..];
      k := k + 1;
      pos := n;
      RingInverse(head, s[k..], pos);
      n := pos.next;
    }
    DistinctSplit(head, s, |s|);
    assert s[..k] == s && s[k..] == [];
  }

  method ListEmpty(head: ListHead, ghost s: seq<ListHead>) returns (empty: bool)
    requires Ring(head, s)
    ensures empty <==> s == []
  {
    assert ([head] + s)[0].next == Succ([head] + s, 0);
    empty := head.next == head;
  }
}
