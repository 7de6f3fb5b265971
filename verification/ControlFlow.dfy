/** The control-flow graph of a function: the mirror of source and destination arcs, reachability,
    and the deletion of unreachable blocks. */
module ControlFlow {
  import opened Collections

  /** A flow arc without its profile weight. */
  datatype Flow = Flow(cc: int, src: nat, dst: nat)

  type Arcs = map<nat, seq<Flow>>

  /** Blocks in layout order and their outgoing arcs; every arc starts at its block and ends in
      the function. */
  ghost predicate ValidDest(layout: seq<nat>, dest: Arcs) {
    && Distinct(layout)
    && (forall b :: b in layout ==> b in dest)
    && (forall b, f :: b in layout && f in dest[b] ==> f.src == b && f.dst in layout)
  }

  /** The source lists hold, with multiplicity, exactly the arcs of the destination lists. */
  ghost predicate Mirror(layout: seq<nat>, dest: Arcs, src: Arcs) {
    && (forall b :: b in layout ==> b in dest && b in src)
    && (forall d, f :: d in layout ==> MirrorAt(layout, dest, src, d, f))
  }

  ghost predicate MirrorAt(layout: seq<nat>, dest: Arcs, src: Arcs, d: nat, f: Flow)
    requires d in src && forall b :: b in layout ==> b in dest
  {
    multiset(src[d])[f] == if f.src in layout && f.dst == d then multiset(dest[f.src])[f] else 0
  }

  ghost predicate Edge(dest: Arcs, a: nat, b: nat) {
    a in dest && exists f :: f in dest[a] && f.dst == b
  }

  // ----- reachability -----

  ghost predicate Walk(layout: seq<nat>, dest: Arcs, p: seq<nat>) {
    && (forall i :: 0 <= i < |p| ==> p[i] in layout)
    && (forall i :: 0 <= i < |p| - 1 ==> Edge(dest, p[i], p[i + 1]))
  }

  ghost predicate WalkFrom(layout: seq<nat>, dest: Arcs, a: nat, b: nat, p: seq<nat>) {
    p != [] && p[0] == a && p[|p| - 1] == b && Walk(layout, dest, p)
  }

  ghost predicate Reaches(layout: seq<nat>, dest: Arcs, a: nat, b: nat) {
    exists p :: WalkFrom(layout, dest, a, b, p)
  }

  lemma ReachesTrans(layout: seq<nat>, dest: Arcs, a: nat, b: nat, c: nat)
    requires Reaches(layout, dest, a, b) && Edge(dest, b, c) && c in layout
    ensures Reaches(layout, dest, a, c)
  {
    var p :| WalkFrom(layout, dest, a, b, p);
    assert WalkFrom(layout, dest, a, c, p + [c]);
  }

  lemma {:induction false} ReachesVia(layout: seq<nat>, dest: Arcs, a: nat, b: nat, c: nat, p: seq<nat>)
    requires Reaches(layout, dest, a, b) && WalkFrom(layout, dest, b, c, p)
    ensures Reaches(layout, dest, a, c)
    decreases |p|
  {
    if |p| > 1 {
      var k := |p| - 1;
      assert WalkFrom(layout, dest, b, p[k - 1], p[..k]);
      ReachesVia(layout, dest, a, b, p[k - 1], p[..k]);
      assert Edge(dest, p[k - 1], p[k - 1 + 1]);
      ReachesTrans(layout, dest, a, p[k - 1], c);
    }
  }

  /** A set closed under arcs holds every block reachable from its members. */
  lemma {:induction false} ClosedHoldsReachable(layout: seq<nat>, dest: Arcs, s: set<nat>, a: nat, b: nat, p: seq<nat>)
    requires forall x, y :: x in s && Edge(dest, x, y) ==> y in s
    requires a in s && WalkFrom(layout, dest, a, b, p)
    ensures b in s
    decreases |p|
  {
    if |p| > 1 {
      var k := |p| - 1;
      assert WalkFrom(layout, dest, a, p[k - 1], p[..k]);
      ClosedHoldsReachable(layout, dest, s, a, p[k - 1], p[..k]);
      assert Edge(dest, p[k - 1], p[k - 1 + 1]);
    }
  }

  // ----- the function and its passes -----

  class FlowGraph {
    var layout: seq<nat>
    var dest: Arcs
    var src: Arcs
    var targets: map<nat, seq<nat>>    // block operands of each block's branches, in order
    const hasOps: set<nat>             // blocks that hold operations
    const registerJump: set<nat>       // blocks that end in a register branch
    var visited: set<nat>
    var dead: set<nat>

    constructor (layout: seq<nat>, dest: Arcs, src: Arcs, targets: map<nat, seq<nat>>,
                 hasOps: set<nat>, registerJump: set<nat>)
      ensures this.layout == layout && this.dest == dest && this.src == src && this.targets == targets
      ensures this.hasOps == hasOps && this.registerJump == registerJump
    {
      this.layout, this.dest, this.src, this.targets := layout, dest, src, targets;
      this.hasOps, this.registerJump := hasOps, registerJump;
      visited, dead := {}, {};
    }

    /** Depth-first marking.  Ancestors are already marked, so cycles end the recursion. */
    method Visit(b: nat)
      requires ValidDest(layout, dest) && b in layout
      modifies this`visited
      ensures b in visited && old(visited) <= visited
      ensures forall x :: x in visited && x !in old(visited) ==> Reaches(layout, dest, b, x)
      ensures forall x, y :: x in visited && x !in old(visited) && Edge(dest, x, y) ==> y in visited
      decreases (set x | x in layout) - visited
    {
      if b in visited {
        return;
      }
      visited := visited + {b};
      assert WalkFrom(layout, dest, b, b, [b]);
      for i := 0 to |dest[b]|
        invariant b in visited && old(visited) <= visited
        invariant forall x :: x in visited && x !in old(visited) ==> Reaches(layout, dest, b, x)
        invariant forall x, y :: x in visited && x !in old(visited) && x != b && Edge(dest, x, y) ==> y in visited
        invariant forall j :: 0 <= j < i ==> dest[b][j].dst in visited
      {
        var c := dest[b][i].dst;
        assert dest[b][i] in dest[b];
        assert Edge(dest, b, c);
        ReachesTrans(layout, dest, b, b, c);
        label Before:
        Visit(c);
        forall x | x in visited && x !in old@Before(visited)
          ensures Reaches(layout, dest, b, x)
        {
          var p :| WalkFrom(layout, dest, c, x, p);
          ReachesVia(layout, dest, b, c, x, p);
        }
      }
    }

    /** Marks exactly the blocks reachable from the first one. */
    method MarkReachable()
      requires ValidDest(layout, dest) && layout != []
      modifies this`visited
      ensures forall x :: x in visited <==> Reaches(layout, dest, layout[0], x)
    {
      visited := {};
      Visit(layout[0]);
      forall x | Reaches(layout, dest, layout[0], x)
        ensures x in visited
      {
        var p :| WalkFrom(layout, dest, layout[0], x, p);
        ClosedHoldsReachable(layout, dest, visited, layout[0], x, p);
      }
    }

    /** Position of an equal arc in a source list. */
    method FindMatchingFlow(list: seq<Flow>, f: Flow) returns (i: nat)
      requires f in list
      ensures i < |list| && list[i] == f
    {
      i := 0;
      while list[i] != f
        invariant i < |list| && f in list[i..]
        decreases |list| - i
      {
        i := i + 1;
      }
    }

    /** Removes every arc of block b, together with its mirror. */
    method Disconnect(b: nat)
      requires ValidDest(layout, dest) && Mirror(layout, dest, src) && b in layout
      modifies this`dest, this`src
      ensures ValidDest(layout, dest) && Mirror(layout, dest, src)
      ensures dest == old(dest)[b := []]
    {
      while dest[b] != []
        invariant b in dest && dest == old(dest)[b := dest[b]]
        invariant ValidDest(layout, dest) && Mirror(layout, dest, src)
        decreases |dest[b]|
      {
        var f := dest[b][0];
        assert f in dest[b] && f.src == b;
        assert MirrorAt(layout, dest, src, f.dst, f);
        assert f in multiset(src[f.dst]);
        var i := FindMatchingFlow(src[f.dst], f);
        RemoveMirrored(layout, dest, src, b, i);
        src := src[f.dst := src[f.dst][..i] + src[f.dst][i + 1..]];
        dest := dest[b := dest[b][1..]];
      }
    }

    /** Flags the unvisited blocks as dead and disconnects them. */
    method DisconnectUnvisited()
      requires ValidDest(layout, dest) && Mirror(layout, dest, src)
      modifies this`dest, this`src, this`dead
      ensures ValidDest(layout, dest) && Mirror(layout, dest, src)
      ensures forall b :: b in layout ==> (b in dead <==> b !in visited)
      ensures forall b :: b in layout ==> dest[b] == if b in visited then old(dest)[b] else []
    {
      for i := 0 to |layout|
        invariant ValidDest(layout, dest) && Mirror(layout, dest, src)
        invariant forall j :: 0 <= j < i ==> (layout[j] in dead <==> layout[j] !in visited)
        invariant forall j :: 0 <= j < |layout| ==>
                    dest[layout[j]] == if j >= i || layout[j] in visited then old(dest)[layout[j]] else []
      {
        if layout[i] !in visited {
          dead := dead + {layout[i]};
          Disconnect(layout[i]);
        } else {
          dead := dead - {layout[i]};
        }
      }
    }

    /** Unlinks the dead blocks from the layout and counts them. */
    method DeleteDeadBlocks() returns (change: nat)
      modifies this`layout
      ensures layout == Without(old(layout), dead)
      ensures change == |old(layout)| - |layout|
    {
      hide Without;
      change := 0;
      var all := layout;
      WithoutNothing(dead);
      assert all[..0] == [] && all == [] + all[0..];
      for i := 0 to |all|
        invariant layout == Without(all[..i], dead) + all[i..]
        invariant change == |all| - |layout|
      {
        NextBlock(all, dead, i);
        if all[i] in dead {
          var pos := i - change;       // where the block stands now
          layout := layout[..pos] + layout[pos + 1..];
          change := change + 1;
        }
      }
      assert all[..|all|] == all && all[|all|..] == [];
    }

    /** Keeps exactly the blocks reachable from the first one, in layout order, with their arcs;
        returns how many were deleted. */
    method DeleteUnreachableBlocks() returns (change: nat)
      requires ValidDest(layout, dest) && Mirror(layout, dest, src) && layout != []
      modifies this`layout, this`dest, this`src, this`visited, this`dead
      ensures forall b :: b in layout <==> b in old(layout) && Reaches(old(layout), old(dest), old(layout)[0], b)
      ensures layout == Without(old(layout), dead)
      ensures change == |old(layout)| - |layout|
      ensures ValidDest(layout, dest) && Mirror(layout, dest, src)
      ensures forall b :: b in layout ==> dest[b] == old(dest)[b]
    {
      ghost var layout0, dest0 := layout, dest;
      MarkReachable();
      DisconnectUnvisited();
      change := DeleteDeadBlocks();
      WithoutExact(layout0, dead);
      forall b, f | b in layout && f in dest[b]
        ensures f.src == b && f.dst in layout
      {
        assert Edge(dest0, b, f.dst);
        ReachesTrans(layout0, dest0, layout0[0], b, f.dst);
      }
      KeepMirror(layout0, layout, dest, src);
    }
  }

  lemma WithoutNothing(dead: set<nat>)
    ensures Without([], dead) == []
  {
  }

  lemma {:induction false} WithoutSnoc(s: seq<nat>, dead: set<nat>, i: nat)
    requires i < |s|
    ensures Without(s[..i + 1], dead) == Without(s[..i], dead) + if s[i] in dead then [] else [s[i]]
    ensures |Without(s[..i], dead)| <= i
    decreases |s|
  {
    if i > 0 {
      assert s[..i + 1][1..] == s[1..][..i] && s[..i][1..] == s[1..][..i - 1];
      WithoutSnoc(s[1..], dead, i - 1);
    }
  }

  /** One turn of the unlinking loop. */
  lemma NextBlock(all: seq<nat>, dead: set<nat>, i: nat)
    requires i < |all|
    ensures
      var kept := Without(all[..i], dead);
      var now, next := kept + all[i..], Without(all[..i + 1], dead) + all[i + 1..];
      next == if all[i] in dead then now[..|kept|] + now[|kept| + 1..] else now
  {
    hide Without;
    WithoutSnoc(all, dead, i);
    CutOut(Without(all[..i], dead), all[i], all[i + 1..]);
    assert all[i..] == [all[i]] + all[i + 1..];
  }

  lemma CutOut(before: seq<nat>, b: nat, after: seq<nat>)
    ensures
      var s := before + ([b] + after);
      s == before + [b] + after && s[..|before|] + s[|before| + 1..] == before + after
  {
  }

  lemma {:induction false} WithoutExact(s: seq<nat>, dead: set<nat>)
    ensures forall b :: b in Without(s, dead) <==> b in s && b !in dead
    ensures Distinct(s) ==> Distinct(Without(s, dead))
  {
    if s != [] {
      WithoutExact(s[1..], dead);
      assert s == [s[0]] + s[1..];
      if Distinct(s) {
        assert Distinct(s[1..]) && s[0] !in s[1..];
      }
    }
  }

  lemma KeepMirror(layout: seq<nat>, kept: seq<nat>, dest: Arcs, src: Arcs)
    requires ValidDest(layout, dest) && Mirror(layout, dest, src)
    requires forall b :: b in kept ==> b in layout
    requires forall b :: b in layout && b !in kept ==> dest[b] == []
    ensures Mirror(kept, dest, src)
  {
    forall d, f | d in kept
      ensures MirrorAt(kept, dest, src, d, f)
    {
      assert MirrorAt(layout, dest, src, d, f);
    }
  }

  lemma RemoveAt(s: seq<Flow>, i: nat)
    requires i < |s|
    ensures multiset(s[..i] + s[i + 1..]) == multiset(s) - multiset{s[i]}
  {
    assert s == s[..i] + [s[i]] + s[i + 1..];
  }

  lemma RemoveMirrored(layout: seq<nat>, dest: Arcs, src: Arcs, b: nat, i: nat)
    requires ValidDest(layout, dest) && Mirror(layout, dest, src) && b in layout && dest[b] != []
    requires var f := dest[b][0]; f.dst in layout && i < |src[f.dst]| && src[f.dst][i] == f
    ensures var f := dest[b][0];
      var dest' := dest[b := dest[b][1..]];
      var src' := src[f.dst := src[f.dst][..i] + src[f.dst][i + 1..]];
      ValidDest(layout, dest') && Mirror(layout, dest', src')
  {
    hide ValidDest, MirrorAt;
    var f, tail := dest[b][0], dest[b][1..];
    FirstIsOwn(layout, dest, b);
    var list := src[f.dst][..i] + src[f.dst][i + 1..];
    var dest', src' := dest[b := tail], src[f.dst := list];
    RemoveAt(src[f.dst], i);
    RemoveAt(dest[b], 0);
    assert dest[b][..0] + tail == tail;
    forall d, g | d in layout
      ensures MirrorAt(layout, dest', src', d, g)
    {
      MirrorStep(layout, dest, src, b, tail, list, d, g);
    }
  }

  lemma FirstIsOwn(layout: seq<nat>, dest: Arcs, b: nat)
    requires ValidDest(layout, dest) && b in layout && dest[b] != []
    ensures dest[b][0].src == b && ValidDest(layout, dest[b := dest[b][1..]])
  {
    assert dest[b][0] in dest[b];
    assert forall g :: g in dest[b][1..] ==> g in dest[b];
  }

  /** One entry of the mirror when arc f goes from the lists of both its ends. */
  lemma MirrorStep(layout: seq<nat>, dest: Arcs, src: Arcs, b: nat, tail: seq<Flow>, list: seq<Flow>, d: nat, g: Flow)
    requires Mirror(layout, dest, src) && b in layout && d in layout && dest[b] != []
    requires var f := dest[b][0];
      && f.src == b && f.dst in layout
      && multiset(tail) == multiset(dest[b]) - multiset{f}
      && multiset(list) == multiset(src[f.dst]) - multiset{f}
    ensures MirrorAt(layout, dest[b := tail], src[dest[b][0].dst := list], d, g)
  {
    var f := dest[b][0];
    assert MirrorAt(layout, dest, src, d, g);
    assert multiset(tail)[g] == if g == f then multiset(dest[b])[g] - 1 else multiset(dest[b])[g] by {
      assert f in dest[b];
    }
    if d == f.dst {
      assert MirrorAt(layout, dest, src, d, f);
    }
  }
}
