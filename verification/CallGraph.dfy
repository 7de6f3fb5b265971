/** The call graph: every arc is threaded on two doubly linked lists at once, the outgoing list
    of its caller and the incoming list of its callee. */
module CallGraph {
  import opened Collections

  class Arc {
    var srcNode: Node?
    var dstNode: Node?
    var prevDst: Arc?
    var nextDst: Arc?
    var prevSrc: Arc?
    var nextSrc: Arc?

    constructor ()
    {
      srcNode, dstNode, prevDst, nextDst, prevSrc, nextSrc := null, null, null, null, null, null;
    }
  }

  class Node {
    const name: string
    var firstDst: Arc?
    var lastDst: Arc?
    var firstSrc: Arc?
    var lastSrc: Arc?
    ghost var dsts: seq<Arc>    // outgoing arcs, in list order
    ghost var srcs: seq<Arc>    // incoming arcs, in list order

    constructor (name: string)
      ensures this.name == name && dsts == [] && srcs == []
      ensures firstDst == lastDst == firstSrc == lastSrc == null
    {
      this.name := name;
      firstDst, lastDst, firstSrc, lastSrc := null, null, null, null;
      dsts, srcs := [], [];
    }
  }

  /** The outgoing list of n is linked as n.dsts says. */
  ghost predicate DstList(n: Node)
    reads n`firstDst, n`lastDst, n`dsts, n.dsts`prevDst, n.dsts`nextDst
  {
    && Distinct(n.dsts)
    && n.firstDst == (if n.dsts == [] then null else n.dsts[0])
    && n.lastDst == (if n.dsts == [] then null else n.dsts[|n.dsts| - 1])
    && (forall i {:trigger n.dsts[i].nextDst} :: 0 <= i < |n.dsts| ==>
          n.dsts[i].nextDst == if i + 1 < |n.dsts| then n.dsts[i + 1] else null)
    && (forall i {:trigger n.dsts[i].prevDst} :: 0 <= i < |n.dsts| ==>
          n.dsts[i].prevDst == if i > 0 then n.dsts[i - 1] else null)
  }

  /** The incoming list of n is linked as n.srcs says. */
  ghost predicate SrcList(n: Node)
    reads n`firstSrc, n`lastSrc, n`srcs, n.srcs`prevSrc, n.srcs`nextSrc
  {
    && Distinct(n.srcs)
    && n.firstSrc == (if n.srcs == [] then null else n.srcs[0])
    && n.lastSrc == (if n.srcs == [] then null else n.srcs[|n.srcs| - 1])
    && (forall i {:trigger n.srcs[i].nextSrc} :: 0 <= i < |n.srcs| ==>
          n.srcs[i].nextSrc == if i + 1 < |n.srcs| then n.srcs[i + 1] else null)
    && (forall i {:trigger n.srcs[i].prevSrc} :: 0 <= i < |n.srcs| ==>
          n.srcs[i].prevSrc == if i > 0 then n.srcs[i - 1] else null)
  }

  ghost function Cut(s: seq<Arc>, k: nat): seq<Arc>
    requires k < |s|
  {
    s[..k] + s[k + 1..]
  }

  lemma CutKeeps(s: seq<Arc>, k: nat)
    requires k < |s| && Distinct(s)
    ensures Distinct(Cut(s, k)) && forall a :: a in Cut(s, k) <==> a in s && a != s[k]
  {
  }

  lemma {:induction false} WithoutAbsent(s: seq<Arc>, a: Arc)
    requires a !in s
    ensures Without(s, {a}) == s
  {
    if s != [] {
      WithoutAbsent(s[1..], a);
    }
  }

  lemma {:induction false} CutIsWithout(s: seq<Arc>, k: nat)
    requires k < |s| && Distinct(s)
    ensures Cut(s, k) == Without(s, {s[k]})
    decreases |s|
  {
    var a, t := s[k], s[1..];
    assert Distinct(t);
    if k == 0 {
      assert a !in t;
      WithoutAbsent(t, a);
    } else {
      CutIsWithout(t, k - 1);
      assert t[k - 1] == a && s[0] != a;
      assert Cut(s, k) == [s[0]] + Cut(t, k - 1);
    }
  }

  // ----- the two ways of unlinking, one list at a time -----

  /** Unlinks an arc from its caller's list by testing each neighbour. */
  method UnlinkDst(n: Node, arc: Arc, ghost k: nat)
    requires DstList(n) && k < |n.dsts| && n.dsts[k] == arc
    modifies n`firstDst, n`lastDst, n`dsts, n.dsts`prevDst, n.dsts`nextDst
    ensures DstList(n) && n.dsts == Cut(old(n.dsts), k)
  {
    ghost var s := n.dsts;
    assert Distinct(Cut(s, k)) by {
      CutKeeps(s, k);
    }
    if n.firstDst == arc {
      n.firstDst := arc.nextDst;
    }
    if n.lastDst == arc {
      n.lastDst := arc.prevDst;
    }
    if arc.prevDst != null {
      arc.prevDst.nextDst := arc.nextDst;
    }
    if arc.nextDst != null {
      arc.nextDst.prevDst := arc.prevDst;
    }
    ghost var t := Cut(s, k);
    n.dsts := t;
    forall i | 0 <= i < |t|
      ensures t[i].nextDst == if i + 1 < |t| then t[i + 1] else null
      ensures t[i].prevDst == if i > 0 then t[i - 1] else null
    {
      assert t[i] == s[if i < k then i else i + 1];
    }
  }

  /** Unlinks an arc from its caller's list by its position: only, last, first or inner. */
  method RemoveDst(n: Node, arc: Arc, ghost k: nat)
    requires DstList(n) && k < |n.dsts| && n.dsts[k] == arc
    modifies n`firstDst, n`lastDst, n`dsts, n.dsts`prevDst, n.dsts`nextDst
    ensures DstList(n) && n.dsts == Cut(old(n.dsts), k)
  {
    ghost var s := n.dsts;
    assert Distinct(Cut(s, k)) by {
      CutKeeps(s, k);
    }
    if n.firstDst == n.lastDst {
      n.firstDst := null;
      n.lastDst := null;
    } else if n.lastDst == arc {
      n.lastDst := arc.prevDst;
      arc.prevDst.nextDst := null;
    } else if n.firstDst == arc {
      n.firstDst := arc.nextDst;
      arc.nextDst.prevDst := null;
    } else {
      arc.prevDst.nextDst := arc.nextDst;
      arc.nextDst.prevDst := arc.prevDst;
    }
    ghost var t := Cut(s, k);
    n.dsts := t;
    forall i | 0 <= i < |t|
      ensures t[i].nextDst == if i + 1 < |t| then t[i + 1] else null
      ensures t[i].prevDst == if i > 0 then t[i - 1] else null
    {
      assert t[i] == s[if i < k then i else i + 1];
    }
  }

  method UnlinkSrc(n: Node, arc: Arc, ghost k: nat)
    requires SrcList(n) && k < |n.srcs| && n.srcs[k] == arc
    modifies n`firstSrc, n`lastSrc, n`srcs, n.srcs`prevSrc, n.srcs`nextSrc
    ensures SrcList(n) && n.srcs == Cut(old(n.srcs), k)
  {
    ghost var s := n.srcs;
    assert Distinct(Cut(s, k)) by {
      CutKeeps(s, k);
    }
    if n.firstSrc == arc {
      n.firstSrc := arc.nextSrc;
    }
    if n.lastSrc == arc {
      n.lastSrc := arc.prevSrc;
    }
    if arc.prevSrc != null {
      arc.prevSrc.nextSrc := arc.nextSrc;
    }
    if arc.nextSrc != null {
      arc.nextSrc.prevSrc := arc.prevSrc;
    }
    ghost var t := Cut(s, k);
    n.srcs := t;
    forall i | 0 <= i < |t|
      ensures t[i].nextSrc == if i + 1 < |t| then t[i + 1] else null
      ensures t[i].prevSrc == if i > 0 then t[i - 1] else null
    {
      assert t[i] == s[if i < k then i else i + 1];
    }
  }

  method RemoveSrc(n: Node, arc: Arc, ghost k: nat)
    requires SrcList(n) && k < |n.srcs| && n.srcs[k] == arc
    modifies n`firstSrc, n`lastSrc, n`srcs, n.srcs`prevSrc, n.srcs`nextSrc
    ensures SrcList(n) && n.srcs == Cut(old(n.srcs), k)
  {
    ghost var s := n.srcs;
    assert Distinct(Cut(s, k)) by {
      CutKeeps(s, k);
    }
    if n.firstSrc == n.lastSrc {
      n.firstSrc := null;
      n.lastSrc := null;
    } else if n.lastSrc == arc {
      n.lastSrc := arc.prevSrc;
      arc.prevSrc.nextSrc := null;
    } else if n.firstSrc == arc {
      n.firstSrc := arc.nextSrc;
      arc.nextSrc.prevSrc := null;
    } else {
      arc.prevSrc.nextSrc := arc.nextSrc;
      arc.nextSrc.prevSrc := arc.prevSrc;
    }
    ghost var t := Cut(s, k);
    n.srcs := t;
    forall i | 0 <= i < |t|
      ensures t[i].nextSrc == if i + 1 < |t| then t[i + 1] else null
      ensures t[i].prevSrc == if i > 0 then t[i - 1] else null
    {
      assert t[i] == s[if i < k then i else i + 1];
    }
  }

  /** Both routines leave the same list. */
  method TakeOffDst(n: Node, arc: Arc, careful: bool)
    requires DstList(n) && arc in n.dsts
    modifies n`firstDst, n`lastDst, n`dsts, n.dsts`prevDst, n.dsts`nextDst
    ensures DstList(n) && n.dsts == Without(old(n.dsts), {arc})
    ensures forall a :: a in n.dsts <==> a in old(n.dsts) && a != arc
  {
    ghost var k :| 0 <= k < |n.dsts| && n.dsts[k] == arc;
    CutKeeps(n.dsts, k);
    CutIsWithout(n.dsts, k);
    if careful {
      UnlinkDst(n, arc, k);
    } else {
      RemoveDst(n, arc, k);
    }
  }

  method AppendDst(n: Node, arc: Arc)
    requires DstList(n) && arc !in n.dsts
    modifies n`firstDst, n`lastDst, n`dsts, n.dsts`nextDst, arc`nextDst, arc`prevDst, arc`srcNode
    ensures DstList(n) && n.dsts == old(n.dsts) + [arc] && arc.srcNode == n
  {
    arc.srcNode := n;
    arc.nextDst := null;
    if n.firstDst == null {
      n.firstDst := arc;
    }
    if n.lastDst != null {
      arc.prevDst := n.lastDst;
      n.lastDst.nextDst := arc;
    } else {
      arc.prevDst := null;
    }
    n.lastDst := arc;
    ghost var s := n.dsts;
    n.dsts := s + [arc];
    assert forall i :: 0 <= i < |s| ==> n.dsts[i] == s[i];
  }

  /** Both routines leave the same list. */
  method TakeOffSrc(n: Node, arc: Arc, careful: bool)
    requires SrcList(n) && arc in n.srcs
    modifies n`firstSrc, n`lastSrc, n`srcs, n.srcs`prevSrc, n.srcs`nextSrc
    ensures SrcList(n) && n.srcs == Without(old(n.srcs), {arc})
    ensures forall a :: a in n.srcs <==> a in old(n.srcs) && a != arc
  {
    ghost var k :| 0 <= k < |n.srcs| && n.srcs[k] == arc;
    CutKeeps(n.srcs, k);
    CutIsWithout(n.srcs, k);
    if careful {
      UnlinkSrc(n, arc, k);
    } else {
      RemoveSrc(n, arc, k);
    }
  }

  method AppendSrc(n: Node, arc: Arc)
    requires SrcList(n) && arc !in n.srcs
    modifies n`firstSrc, n`lastSrc, n`srcs, n.srcs`nextSrc, arc`nextSrc, arc`prevSrc, arc`dstNode
    ensures SrcList(n) && n.srcs == old(n.srcs) + [arc] && arc.dstNode == n
  {
    arc.dstNode := n;
    arc.nextSrc := null;
    if n.firstSrc == null {
      n.firstSrc := arc;
    }
    if n.lastSrc != null {
      arc.prevSrc := n.lastSrc;
      n.lastSrc.nextSrc := arc;
    } else {
      arc.prevSrc := null;
    }
    n.lastSrc := arc;
    ghost var s := n.srcs;
    n.srcs := s + [arc];
    assert forall i :: 0 <= i < |s| ==> n.srcs[i] == s[i];
  }

  // ----- one side of the whole graph -----

  ghost predicate OwnsDst(n: Node, arcs: set<Arc>)
    reads n`dsts, arcs`srcNode
  {
    forall a :: a in n.dsts ==> a in arcs && a.srcNode == n
  }

  /** Every live arc is on exactly the outgoing list of its caller. */
  ghost predicate DstSide(nodes: set<Node>, arcs: set<Arc>)
    reads nodes`firstDst, nodes`lastDst, nodes`dsts, arcs`prevDst, arcs`nextDst, arcs`srcNode
  {
    && (forall n :: n in nodes ==> OwnsDst(n, arcs))
    && (forall n :: n in nodes ==> DstList(n))
    && (forall a :: a in arcs ==> a.srcNode != null && a.srcNode in nodes && a in a.srcNode.dsts)
  }

  ghost predicate OwnsSrc(n: Node, arcs: set<Arc>)
    reads n`srcs, arcs`dstNode
  {
    forall a :: a in n.srcs ==> a in arcs && a.dstNode == n
  }

  /** Every live arc is on exactly the incoming list of its callee. */
  ghost predicate SrcSide(nodes: set<Node>, arcs: set<Arc>)
    reads nodes`firstSrc, nodes`lastSrc, nodes`srcs, arcs`prevSrc, arcs`nextSrc, arcs`dstNode
  {
    && (forall n :: n in nodes ==> OwnsSrc(n, arcs))
    && (forall n :: n in nodes ==> SrcList(n))
    && (forall a :: a in arcs ==> a.dstNode != null && a.dstNode in nodes && a in a.dstNode.srcs)
  }

  twostate lemma SameDstList(n: Node)
    requires old(DstList(n))
    requires n.dsts == old(n.dsts) && n.firstDst == old(n.firstDst) && n.lastDst == old(n.lastDst)
    requires forall a :: a in n.dsts ==> a.nextDst == old(a.nextDst) && a.prevDst == old(a.prevDst)
    ensures DstList(n)
  {
  }

  method LinkDst(ghost nodes: set<Node>, ghost arcs: set<Arc>, n: Node, arc: Arc)
    requires DstSide(nodes, arcs) && n in nodes && arc !in arcs
    modifies n`firstDst, n`lastDst, n`dsts, n.dsts`nextDst, arc`nextDst, arc`prevDst, arc`srcNode
    ensures DstSide(nodes, arcs + {arc}) && n.dsts == old(n.dsts) + [arc] && arc.srcNode == n
  {
    hide DstList;
    forall m, a | m in nodes && m != n && a in m.dsts
      ensures a !in n.dsts && a != arc
    {
      assert OwnsDst(m, arcs) && OwnsDst(n, arcs);
    }
    AppendDst(n, arc);
    ghost var live := arcs + {arc};
    forall m | m in nodes
      ensures OwnsDst(m, live) && DstList(m)
    {
      assert old(OwnsDst(m, arcs) && DstList(m));
      if m != n {
        SameDstList(m);
      }
    }
    forall a | a in live
      ensures a.srcNode != null && a.srcNode in nodes && a in a.srcNode.dsts
    {
    }
  }

  twostate lemma SameSrcList(n: Node)
    requires old(SrcList(n))
    requires n.srcs == old(n.srcs) && n.firstSrc == old(n.firstSrc) && n.lastSrc == old(n.lastSrc)
    requires forall a :: a in n.srcs ==> a.nextSrc == old(a.nextSrc) && a.prevSrc == old(a.prevSrc)
    ensures SrcList(n)
  {
  }

  method LinkSrc(ghost nodes: set<Node>, ghost arcs: set<Arc>, n: Node, arc: Arc)
    requires SrcSide(nodes, arcs) && n in nodes && arc !in arcs
    modifies n`firstSrc, n`lastSrc, n`srcs, n.srcs`nextSrc, arc`nextSrc, arc`prevSrc, arc`dstNode
    ensures SrcSide(nodes, arcs + {arc}) && n.srcs == old(n.srcs) + [arc] && arc.dstNode == n
  {
    hide SrcList;
    forall m, a | m in nodes && m != n && a in m.srcs
      ensures a !in n.srcs && a != arc
    {
      assert OwnsSrc(m, arcs) && OwnsSrc(n, arcs);
    }
    AppendSrc(n, arc);
    ghost var live := arcs + {arc};
    forall m | m in nodes
      ensures OwnsSrc(m, live) && SrcList(m)
    {
      assert old(OwnsSrc(m, arcs) && SrcList(m));
      if m != n {
        SameSrcList(m);
      }
    }
    forall a | a in live
      ensures a.dstNode != null && a.dstNode in nodes && a in a.dstNode.srcs
    {
    }
  }

  /** Takes an arc off its caller's list; `careful` picks the unlink routine. */
  method DropDst(ghost nodes: set<Node>, ghost arcs: set<Arc>, arc: Arc, careful: bool)
    requires DstSide(nodes, arcs) && arc in arcs
    modifies arc.srcNode`firstDst, arc.srcNode`lastDst, arc.srcNode`dsts
    modifies arc.srcNode.dsts`prevDst, arc.srcNode.dsts`nextDst
    ensures DstSide(nodes, arcs - {arc})
    ensures arc.srcNode.dsts == Without(old(arc.srcNode.dsts), {arc})
  {
    hide DstList;
    var n := arc.srcNode;
    forall m, a | m in nodes && m != n && a in m.dsts
      ensures a !in n.dsts
    {
      assert OwnsDst(m, arcs) && OwnsDst(n, arcs);
    }
    TakeOffDst(n, arc, careful);
    assert n.dsts == Without(old(n.dsts), {arc});
    ghost var live := arcs - {arc};
    forall m | m in nodes
      ensures OwnsDst(m, live) && DstList(m)
    {
      assert old(OwnsDst(m, arcs) && DstList(m));
      if m != n {
        assert arc !in m.dsts;
        SameDstList(m);
      }
    }
    forall a | a in live
      ensures a.srcNode != null && a.srcNode in nodes && a in a.srcNode.dsts
    {
    }
  }

  method DropSrc(ghost nodes: set<Node>, ghost arcs: set<Arc>, arc: Arc, careful: bool)
    requires SrcSide(nodes, arcs) && arc in arcs
    modifies arc.dstNode`firstSrc, arc.dstNode`lastSrc, arc.dstNode`srcs
    modifies arc.dstNode.srcs`prevSrc, arc.dstNode.srcs`nextSrc
    ensures SrcSide(nodes, arcs - {arc})
    ensures arc.dstNode.srcs == Without(old(arc.dstNode.srcs), {arc})
  {
    hide SrcList;
    var n := arc.dstNode;
    forall m, a | m in nodes && m != n && a in m.srcs
      ensures a !in n.srcs
    {
      assert OwnsSrc(m, arcs) && OwnsSrc(n, arcs);
    }
    TakeOffSrc(n, arc, careful);
    assert n.srcs == Without(old(n.srcs), {arc});
    ghost var live := arcs - {arc};
    forall m | m in nodes
      ensures OwnsSrc(m, live) && SrcList(m)
    {
      assert old(OwnsSrc(m, arcs) && SrcList(m));
      if m != n {
        assert arc !in m.srcs;
        SameSrcList(m);
      }
    }
    forall a | a in live
      ensures a.dstNode != null && a.dstNode in nodes && a in a.dstNode.srcs
    {
    }
  }

  // ----- the whole graph -----

  ghost predicate UniqueNames(nodes: seq<Node>) {
    forall i, j :: 0 <= i < j < |nodes| ==> nodes[i].name != nodes[j].name
  }

  ghost function NodeSet(nodes: seq<Node>): set<Node> {
    set n | n in nodes
  }

  /** What an operation leaves alone: the lists of every node, but for arc a. */
  twostate predicate OnlyDrops(nodes: seq<Node>, a: Arc)
    reads nodes`dsts, nodes`srcs
  {
    forall n :: n in nodes ==> n.dsts == Without(old(n.dsts), {a}) && n.srcs == Without(old(n.srcs), {a})
  }

  class Graph {
    var nodes: seq<Node>         // the node list, in order
    ghost var arcs: set<Arc>     // arcs allocated and not yet freed
    ghost var freed: seq<Arc>    // arcs freed so far, in order

    /** Names are unique; every live arc is on exactly its caller's outgoing list and its
        callee's incoming list, the lists hold nothing else, and nothing is freed twice. */
    ghost predicate Valid()
      reads this, nodes, arcs
    {
      && UniqueNames(nodes)
      && DstSide(NodeSet(nodes), arcs)
      && SrcSide(NodeSet(nodes), arcs)
      && Distinct(freed) && (forall a :: a in freed ==> a !in arcs)
    }

    constructor ()
      ensures Valid() && nodes == [] && arcs == {} && freed == []
    {
      nodes, arcs, freed := [], {}, [];
    }

    /** Linear search by name; a missing node is created at the end of the list. */
    method FindNode(name: string) returns (n: Node)
      requires Valid()
      modifies this`nodes
      ensures Valid() && n in nodes && n.name == name
      ensures nodes == old(nodes) || (fresh(n) && nodes == old(nodes) + [n] && n.dsts == [] && n.srcs == [])
    {
      hide DstSide, SrcSide;
      for i := 0 to |nodes|
        invariant forall j :: 0 <= j < i ==> nodes[j].name != name
        modifies {}
      {
        if nodes[i].name == name {
          return nodes[i];
        }
      }
      n := new Node(name);
      assert NodeSet(nodes + [n]) == NodeSet(nodes) + {n};
      AddEmptyNode(NodeSet(nodes), arcs, n);
      nodes := nodes + [n];
    }

    /** Adds a call arc from a node to the node of the given name, which may be the caller. */
    method AddArc(caller: Node, name: string) returns (callee: Node, arc: Arc)
      requires Valid() && caller in nodes
      modifies this`nodes, this`arcs, nodes, arcs`nextDst, arcs`nextSrc
      ensures Valid() && callee in nodes && callee.name == name
      ensures nodes == old(nodes) || (fresh(callee) && nodes == old(nodes) + [callee])
      ensures fresh(arc) && arcs == old(arcs) + {arc} && arc.srcNode == caller && arc.dstNode == callee
      ensures forall n :: n in old(nodes) ==>
                && n.dsts == old(n.dsts) + (if n == caller then [arc] else [])
                && n.srcs == old(n.srcs) + (if n == callee then [arc] else [])
    {
      hide DstSide, SrcSide, UniqueNames;
      callee := FindNode(name);
      arc := new Arc();
      Thread(caller, callee, arc);
    }

    /** Appends a new arc to the lists of both ends. */
    method Thread(caller: Node, callee: Node, arc: Arc)
      requires Valid() && caller in nodes && callee in nodes && arc !in arcs && arc !in freed
      modifies this`arcs, caller, callee, arcs`nextDst, arcs`nextSrc, arc
      ensures Valid() && arcs == old(arcs) + {arc} && arc.srcNode == caller && arc.dstNode == callee
      ensures caller.dsts == old(caller.dsts) + [arc] && callee.srcs == old(callee.srcs) + [arc]
      ensures caller != callee ==> caller.srcs == old(caller.srcs) && callee.dsts == old(callee.dsts)
    {
      hide DstSide, SrcSide, UniqueNames;
      ghost var before, all := arcs, NodeSet(nodes);
      InArcs(all, before, caller, callee);
      LinkDst(all, before, caller, arc);
      LinkSrc(all, before, callee, arc);
      arcs := before + {arc};
    }

    /** Unlinks an arc from both lists and frees it. */
    method DeleteArc(arc: Arc)
      requires Valid() && arc in arcs
      modifies this`arcs, this`freed, nodes, arcs`prevDst, arcs`nextDst, arcs`prevSrc, arcs`nextSrc
      ensures Valid() && arcs == old(arcs) - {arc} && freed == old(freed) + [arc]
      ensures OnlyDrops(nodes, arc)
    {
      hide UniqueNames, DstSide, SrcSide, Without;
      Unthread(arc, true);
      freed := freed + [arc];
    }

    /** Unlinks an arc from both lists by either routine; the arc itself stays allocated. */
    method Unthread(arc: Arc, careful: bool)
      requires Valid() && arc in arcs
      modifies this`arcs, nodes, arcs`prevDst, arcs`nextDst, arcs`prevSrc, arcs`nextSrc
      ensures Valid() && arcs == old(arcs) - {arc} && freed == old(freed)
      ensures OnlyDrops(nodes, arc)
    {
      hide UniqueNames, DstSide, SrcSide, Without;
      ghost var live, all := arcs, NodeSet(nodes);
      Ends(all, live, arc);
      Elsewhere(all, live, arc);
      DropDst(all, live, arc, careful);
      assert forall n :: n in nodes ==> n.dsts == Without(old(n.dsts), {arc});
      DropSrc(all, live, arc, careful);
      assert forall n :: n in nodes ==> n.srcs == Without(old(n.srcs), {arc});
      arcs := live - {arc};
    }

    /** Every arc that was ever on a list is live or freed. */
    ghost function Ever(): set<Arc>
      reads this
    {
      arcs + set a | a in freed
    }

    method DeleteIncoming(n: Node)
      requires Valid() && n in nodes
      modifies this`arcs, this`freed, nodes, arcs`prevDst, arcs`nextDst, arcs`prevSrc, arcs`nextSrc
      ensures Valid() && n.srcs == [] && |n.dsts| <= |old(n.dsts)|
      ensures arcs <= old(arcs) && Ever() == old(Ever())
      ensures forall a :: a in old(arcs) ==> (a in arcs <==> a.dstNode != n)
    {
      hide DstSide, SrcSide, UniqueNames, Without;
      ListOf(NodeSet(nodes), arcs, n);
      var arc := n.firstSrc;
      while arc != null
        invariant Valid() && arcs <= old(arcs) && Ever() == old(Ever()) && |n.dsts| <= |old(n.dsts)|
        invariant arc == if n.srcs == [] then null else n.srcs[0]
        invariant forall a :: a in old(arcs) && a.dstNode != n ==> a in arcs
        decreases |n.srcs|
        modifies this`arcs, this`freed, nodes, arcs`prevDst, arcs`nextDst, arcs`prevSrc, arcs`nextSrc
      {
        ListOf(NodeSet(nodes), arcs, n);
        WithoutHead(n.srcs);
        WithoutShrinks(n.dsts, arc);
        var next := arc.nextSrc;
        DeleteArc(arc);
        arc := next;
      }
      NoneLeft(NodeSet(nodes), arcs, n);
    }

    method DeleteOutgoing(n: Node)
      requires Valid() && n in nodes
      modifies this`arcs, this`freed, nodes, arcs`prevDst, arcs`nextDst, arcs`prevSrc, arcs`nextSrc
      ensures Valid() && n.dsts == [] && |n.srcs| <= |old(n.srcs)|
      ensures arcs <= old(arcs) && Ever() == old(Ever())
      ensures forall a :: a in old(arcs) ==> (a in arcs <==> a.srcNode != n)
    {
      hide DstSide, SrcSide, UniqueNames, Without;
      ListOf(NodeSet(nodes), arcs, n);
      var arc := n.firstDst;
      while arc != null
        invariant Valid() && arcs <= old(arcs) && Ever() == old(Ever()) && |n.srcs| <= |old(n.srcs)|
        invariant arc == if n.dsts == [] then null else n.dsts[0]
        invariant forall a :: a in old(arcs) && a.srcNode != n ==> a in arcs
        decreases |n.dsts|
        modifies this`arcs, this`freed, nodes, arcs`prevDst, arcs`nextDst, arcs`prevSrc, arcs`nextSrc
      {
        ListOf(NodeSet(nodes), arcs, n);
        WithoutHead(n.dsts);
        WithoutShrinks(n.srcs, arc);
        var next := arc.nextDst;
        DeleteArc(arc);
        arc := next;
      }
      NoneLeft(NodeSet(nodes), arcs, n);
    }

    /** Frees the arcs of the first node and the node itself.  A self call goes with the incoming
        arcs, so the second pass does not meet it again. */
    method DeleteFirstNode()
      requires Valid() && nodes != []
      modifies this, nodes, arcs`prevDst, arcs`nextDst, arcs`prevSrc, arcs`nextSrc
      ensures Valid() && nodes == old(nodes)[1..]
      ensures arcs <= old(arcs) && Ever() == old(Ever())
      ensures forall a :: a in old(arcs) ==> (a in arcs <==> a.srcNode != old(nodes[0]) && a.dstNode != old(nodes[0]))
    {
      hide DstSide, SrcSide, Without;
      var n := nodes[0];
      DeleteIncoming(n);
      DeleteOutgoing(n);
      DropEmptyNode(NodeSet(nodes), arcs, n);
      assert NodeSet(nodes[1..]) == NodeSet(nodes) - {n} by {
        assert nodes == [n] + nodes[1..];
      }
      nodes := nodes[1..];
    }

    /** Deletes the whole graph: afterwards no arc is live, and every arc has been freed exactly
        once. */
    method Delete()
      requires Valid()
      modifies this, nodes, arcs`prevDst, arcs`nextDst, arcs`prevSrc, arcs`nextSrc
      ensures nodes == [] && arcs == {}
      ensures Distinct(freed) && (set a | a in freed) == old(Ever())
    {
      hide UniqueNames, Without, DstSide, SrcSide;
      while nodes != []
        invariant Valid() && Ever() == old(Ever())
        invariant arcs <= old(arcs)
        invariant |nodes| <= |old(nodes)| && nodes == old(nodes)[|old(nodes)| - |nodes|..]
        decreases |nodes|
      {
        DeleteFirstNode();
      }
      NoNodesNoArcs(NodeSet(nodes), arcs);
    }
  }

  lemma WithoutHead(s: seq<Arc>)
    requires s != [] && Distinct(s)
    ensures Without(s, {s[0]}) == s[1..]
  {
    assert s[0] !in s[1..];
    WithoutAbsent(s[1..], s[0]);
  }

  lemma {:induction false} WithoutShrinks(s: seq<Arc>, a: Arc)
    ensures |Without(s, {a})| <= |s|
  {
    if s != [] {
      WithoutShrinks(s[1..], a);
    }
  }

  /** The head fields and first links of a node's lists. */
  lemma ListOf(nodes: set<Node>, arcs: set<Arc>, n: Node)
    requires DstSide(nodes, arcs) && SrcSide(nodes, arcs) && n in nodes
    ensures Distinct(n.dsts) && Distinct(n.srcs)
    ensures n.firstDst == (if n.dsts == [] then null else n.dsts[0])
    ensures n.firstSrc == (if n.srcs == [] then null else n.srcs[0])
    ensures n.dsts != [] ==> n.dsts[0] in arcs && n.dsts[0].nextDst == if |n.dsts| > 1 then n.dsts[1] else null
    ensures n.srcs != [] ==> n.srcs[0] in arcs && n.srcs[0].nextSrc == if |n.srcs| > 1 then n.srcs[1] else null
    ensures n.dsts != [] ==> n.dsts[0].srcNode == n
    ensures n.srcs != [] ==> n.srcs[0].dstNode == n
  {
    assert DstList(n) && SrcList(n) && OwnsDst(n, arcs) && OwnsSrc(n, arcs);
  }

  /** An empty list means no live arc on that side. */
  lemma NoneLeft(nodes: set<Node>, arcs: set<Arc>, n: Node)
    requires DstSide(nodes, arcs) && SrcSide(nodes, arcs)
    ensures n.dsts == [] ==> forall a :: a in arcs ==> a.srcNode != n
    ensures n.srcs == [] ==> forall a :: a in arcs ==> a.dstNode != n
  {
    hide DstList, SrcList, OwnsDst, OwnsSrc;
  }

  lemma NoNodesNoArcs(nodes: set<Node>, arcs: set<Arc>)
    requires DstSide(nodes, arcs) && nodes == {}
    ensures arcs == {}
  {
  }

  lemma DropEmptyNode(nodes: set<Node>, arcs: set<Arc>, n: Node)
    requires DstSide(nodes, arcs) && SrcSide(nodes, arcs) && n.dsts == [] && n.srcs == []
    ensures DstSide(nodes - {n}, arcs) && SrcSide(nodes - {n}, arcs)
  {
    hide DstList, SrcList, OwnsDst, OwnsSrc;
  }

  lemma AddEmptyNode(nodes: set<Node>, arcs: set<Arc>, n: Node)
    requires DstSide(nodes, arcs) && SrcSide(nodes, arcs)
    requires n.dsts == [] && n.srcs == [] && n.firstDst == n.lastDst == n.firstSrc == n.lastSrc == null
    ensures DstSide(nodes + {n}, arcs) && SrcSide(nodes + {n}, arcs)
  {
  }

  /** The lists of two nodes hold live arcs only. */
  lemma InArcs(nodes: set<Node>, arcs: set<Arc>, n: Node, m: Node)
    requires DstSide(nodes, arcs) && SrcSide(nodes, arcs) && n in nodes && m in nodes
    ensures forall a :: a in n.dsts || a in m.srcs ==> a in arcs
  {
  }

  /** A live arc has both its ends in the graph, and their lists hold live arcs only. */
  lemma Ends(nodes: set<Node>, arcs: set<Arc>, arc: Arc)
    requires DstSide(nodes, arcs) && SrcSide(nodes, arcs) && arc in arcs
    ensures arc.srcNode != null && arc.srcNode in nodes && arc.dstNode != null && arc.dstNode in nodes
    ensures forall a :: a in arc.srcNode.dsts || a in arc.dstNode.srcs ==> a in arcs
  {
    InArcs(nodes, arcs, arc.srcNode, arc.dstNode);
  }

  /** An arc is on no list but those of its two ends. */
  lemma Elsewhere(nodes: set<Node>, arcs: set<Arc>, arc: Arc)
    requires DstSide(nodes, arcs) && SrcSide(nodes, arcs) && arc in arcs
    ensures forall n :: n in nodes && n != arc.srcNode ==> Without(n.dsts, {arc}) == n.dsts
    ensures forall n :: n in nodes && n != arc.dstNode ==> Without(n.srcs, {arc}) == n.srcs
  {
    hide DstList, SrcList;
    forall n | n in nodes && n != arc.srcNode
      ensures Without(n.dsts, {arc}) == n.dsts
    {
      assert OwnsDst(n, arcs);
      WithoutAbsent(n.dsts, arc);
    }
    forall n | n in nodes && n != arc.dstNode
      ensures Without(n.srcs, {arc}) == n.srcs
    {
      assert OwnsSrc(n, arcs);
      WithoutAbsent(n.srcs, arc);
    }
  }
}
