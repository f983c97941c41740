/** The tree of address spaces (address_space.c): registration links a child in
    front of its siblings, and an access goes to the first child that covers it. */
module Dispatch {
  import opened Words

  class Space {
    const start: u64
    const end: u64
    var children: Space?
    var sibling: Space?

    /** init_address_space */
    constructor (start: u64, end: u64)
      ensures this.start == start && this.end == end && children == null && sibling == null
    {
      this.start, this.end, children, sibling := start, end, null, null;
    }

    predicate Covers(addr: u64) { start <= addr <= end }
  }

  /** A space with the trees of its children, most recently registered first. */
  datatype Tree = Tree(space: Space, kids: seq<Tree>)

  function Spaces(ts: seq<Tree>): set<Space> { set t | t in ts :: t.space }

  /** The sibling links from `first` run through the roots of ts. */
  ghost predicate Chained(first: Space?, ts: seq<Tree>)
    reads Spaces(ts)
  {
    if ts == [] then first == null
    else
      assert ts[0] in ts && forall t :: t in ts[1..] ==> t in ts;
      first == ts[0].space && Chained(ts[0].space.sibling, ts[1..])
  }

  /** The objects of a tree. */
  ghost function Nodes(t: Tree): set<Space> { {t.space} + NodesOf(t.kids) }

  ghost function NodesOf(ts: seq<Tree>): (s: set<Space>)
    ensures Spaces(ts) <= s
  {
    if ts == [] then {}
    else
      assert ts == [ts[0]] + ts[1..];
      Nodes(ts[0]) + NodesOf(ts[1..])
  }

  /** The links of the heap are those of the tree, which has no cycle. The sibling
      link of the root itself is its parent's matter. */
  ghost predicate Represents(t: Tree)
    reads t.space`children, NodesOf(t.kids)
    decreases t
  {
    t.space !in NodesOf(t.kids) && Chained(t.space.children, t.kids) && AllRepresent(t.kids)
  }

  ghost predicate AllRepresent(ts: seq<Tree>)
    reads NodesOf(ts)
    decreases ts
  {
    ts != [] ==>
      assert {ts[0].space} + NodesOf(ts[0].kids) == Nodes(ts[0]) <= NodesOf(ts);
      Represents(ts[0]) && AllRepresent(ts[1..])
  }

  /** Where an access ends up, and at which offset: in the first of some children
      that covers it, else in the space itself. */
  function Route(t: Tree, addr: u64): (Space, u64)
    decreases t, 0
  {
    RouteAmong(t.kids, t.space, addr)
  }

  function RouteAmong(ts: seq<Tree>, space: Space, addr: u64): (Space, u64)
    decreases ts, 1
  {
    if ts == [] then (space, addr)
    else if ts[0].space.Covers(addr) then Route(ts[0], addr - ts[0].space.start)
    else RouteAmong(ts[1..], space, addr)
  }

  /** A space just initialised is a tree by itself. */
  lemma Leaf(space: Space)
    requires space.children == null
    ensures Represents(Tree(space, []))
  {
  }

  /** register_address_space: the child, with its own tree, becomes the first child
      of the parent, and the result represents the larger tree. */
  method Register(parent: Space, child: Space, ghost t: Tree, ghost kid: Tree)
    requires t.space == parent && Represents(t) && kid.space == child && Represents(kid)
    requires child.sibling == null && Nodes(t) !! Nodes(kid)
    modifies parent`children, child`sibling
    ensures Represents(t.(kids := [kid] + t.kids)) && Represents(kid)
    ensures parent.sibling == old(parent.sibling)
  {
    ghost var first := parent.children;
    if parent.children != null {
      child.sibling := parent.children;
    }
    parent.children := child;
    assert ([kid] + t.kids)[1..] == t.kids;
    assert Chained(first, t.kids) && AllRepresent(t.kids);
    assert Chained(child, [kid] + t.kids);
  }

  /** How every device is set up (ram.c:166-175 and its like): a fresh space is
      initialised and registered under the parent. */
  method AddDevice(parent: Space, start: u64, end: u64, ghost t: Tree, ghost nodes: set<Space>) returns (child: Space)
    requires t.space == parent && Represents(t) && nodes == Nodes(t)
    modifies parent`children
    ensures fresh(child) && child.start == start && child.end == end
    ensures Represents(t.(kids := [Tree(child, [])] + t.kids))
    ensures parent.sibling == old(parent.sibling)
  {
    child := new Space(start, end);
    assert child !in nodes && NodesOf(t.kids) <= nodes;
    Leaf(child);
    Register(parent, child, t, Tree(child, []));
  }

  /** The dispatch of as_read_nommu and as_write_nommu. */
  method Lookup(space: Space, addr: u64, ghost t: Tree) returns (target: Space, offset: u64)
    requires Represents(t) && t.space == space
    ensures (target, offset) == Route(t, addr)
    decreases t
  {
    var child := space.children;
    ghost var rest := t.kids;
    while child != null
      invariant Chained(child, rest) && AllRepresent(rest)
      invariant forall i :: 0 <= i < |rest| ==> rest[i] < t
      invariant Route(t, addr) == RouteAmong(rest, space, addr)
      decreases |rest|
    {
      if child.start <= addr && addr <= child.end {
        target, offset := Lookup(child, addr - child.start, rest[0]);
        return;
      }
      child := child.sibling;
      rest := rest[1..];
    }
    return space, addr;
  }

  /** Registration and dispatch compose: after a child is registered, an access it
      covers goes into it, and every other access goes where it went before. */
  method RegisterThenLookup(parent: Space, child: Space, addr: u64, ghost t: Tree, ghost kid: Tree)
    returns (target: Space, offset: u64)
    requires t.space == parent && Represents(t) && kid.space == child && Represents(kid)
    requires child.sibling == null && Nodes(t) !! Nodes(kid)
    modifies parent`children, child`sibling
    ensures (target, offset) == if child.start <= addr <= child.end then Route(kid, addr - child.start)
                                else Route(t, addr)
  {
    Register(parent, child, t, kid);
    RegisteringReroutes(t, kid, addr);
    target, offset := Lookup(parent, addr, t.(kids := [kid] + t.kids));
  }

  // ------------------------------------------------------------------- results

  predicate Overlap(a: Space, b: Space) { a.start <= b.end && b.start <= a.end }

  /** No two children overlap. */
  predicate Apart(ts: seq<Tree>) {
    forall i, j :: 0 <= i < j < |ts| ==> !Overlap(ts[i].space, ts[j].space)
  }

  /** With disjoint children an address goes to the one that covers it, whatever
      the order of registration. */
  lemma {:induction false} OrderDoesNotMatter(ts: seq<Tree>, space: Space, addr: u64, k: nat)
    requires Apart(ts) && k < |ts| && ts[k].space.start <= addr <= ts[k].space.end
    ensures RouteAmong(ts, space, addr) == Route(ts[k], addr - ts[k].space.start)
  {
    if k == 0 {
    } else {
      assert !Overlap(ts[0].space, ts[k].space);
      OrderDoesNotMatter(ts[1..], space, addr, k - 1);
    }
  }

  /** Registering a child takes over exactly the addresses it covers; all others
      go where they went. */
  lemma RegisteringReroutes(t: Tree, child: Tree, addr: u64)
    ensures Route(t.(kids := [child] + t.kids), addr)
         == if child.space.start <= addr <= child.space.end then Route(child, addr - child.space.start)
            else Route(t, addr)
  {
    assert ([child] + t.kids)[1..] == t.kids;
  }
}
