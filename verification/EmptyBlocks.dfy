/** Removing empty blocks: arcs into an empty block are sent on to the next block in layout
    order, and the sequences of non-empty blocks that can be executed stay the same. */
module EmptyBlocks {
  import opened Collections
  import opened ControlFlow

  // ----- one removal, on values -----

  /** The arc after redirection from block e to block s. */
  function Redirect(f: Flow, fallThrough: bool, e: nat, s: nat): Flow {
    if f.dst == e then Flow(if fallThrough then 0 else f.cc, f.src, s) else f
  }

  /** No branch belongs to the arc at position i. */
  predicate FallsThrough(targets: nat, registerJump: bool, i: nat) {
    i >= targets && !registerJump
  }

  ghost predicate RedirectedList(old': seq<Flow>, new': seq<Flow>, targets: nat, registerJump: bool, e: nat, s: nat) {
    |new'| == |old'| &&
    forall i :: 0 <= i < |old'| ==> new'[i] == Redirect(old'[i], FallsThrough(targets, registerJump, i), e, s)
  }

  /** All arcs into e now go to s. */
  ghost predicate Redirected(layout: seq<nat>, dest: Arcs, dest': Arcs, e: nat, s: nat) {
    forall b :: b in layout ==> b in dest && b in dest' && RedirectedDst(dest[b], dest'[b], e, s)
  }

  ghost predicate RedirectedDst(fs: seq<Flow>, fs': seq<Flow>, e: nat, s: nat) {
    |fs'| == |fs| && forall i :: 0 <= i < |fs| ==>
      fs'[i].src == fs[i].src && fs'[i].dst == if fs[i].dst == e then s else fs[i].dst
  }

  /** Every empty block has arcs, all of them to the next block, and the last block is not empty. */
  ghost predicate EmptiesFallThrough(layout: seq<nat>, dest: Arcs, hasOps: set<nat>) {
    forall i :: 0 <= i < |layout| && layout[i] !in hasOps ==>
      && i + 1 < |layout|
      && layout[i] in dest && dest[layout[i]] != []
      && (forall f :: f in dest[layout[i]] ==> f.dst == layout[i + 1])
  }

  ghost predicate Branches(layout: seq<nat>, dest: Arcs, targets: map<nat, seq<nat>>) {
    forall b :: b in layout ==> b in dest && b in targets && InStep(dest[b], targets[b])
  }

  /** The branch operands name the destinations of the first arcs. */
  ghost predicate InStep(fs: seq<Flow>, ts: seq<nat>) {
    |ts| <= |fs| && forall i :: 0 <= i < |ts| ==> ts[i] == fs[i].dst
  }

  // ----- meaning: traces of non-empty blocks -----

  ghost predicate EntryWalk(layout: seq<nat>, dest: Arcs, p: seq<nat>) {
    Walk(layout, dest, p) && (p != [] ==> layout != [] && p[0] == layout[0])
  }

  function Trace(p: seq<nat>, hasOps: set<nat>): seq<nat> {
    if p == [] then [] else (if p[0] in hasOps then [p[0]] else []) + Trace(p[1..], hasOps)
  }

  /** t is the sequence of non-empty blocks of some walk from the first block. */
  ghost predicate HasTrace(layout: seq<nat>, dest: Arcs, hasOps: set<nat>, t: seq<nat>) {
    exists p :: EntryWalk(layout, dest, p) && Trace(p, hasOps) == t
  }

  /** What relates the graph before and after one removal. */
  ghost predicate Unlinks(layout: seq<nat>, dest: Arcs, layout': seq<nat>, dest': Arcs, i: nat, hasOps: set<nat>) {
    && ValidDest(layout, dest)
    && i + 1 < |layout| && layout[i] !in hasOps
    && layout' == layout[..i] + layout[i + 1..]
    && Redirected(layout, dest, dest', layout[i], layout[i + 1])
  }

  /** The same, in a graph whose empty blocks fall through. */
  ghost predicate Removal(layout: seq<nat>, dest: Arcs, layout': seq<nat>, dest': Arcs, i: nat, hasOps: set<nat>) {
    Unlinks(layout, dest, layout', dest', i, hasOps) && EmptiesFallThrough(layout, dest, hasOps)
  }

  lemma RemovalEdges(layout: seq<nat>, dest: Arcs, layout': seq<nat>, dest': Arcs, i: nat, hasOps: set<nat>,
                     a: nat, b: nat)
    requires Removal(layout, dest, layout', dest', i, hasOps) && a in layout && b != layout[i]
    ensures Edge(dest', a, b) <==> Edge(dest, a, b) || (b == layout[i + 1] && Edge(dest, a, layout[i]))
  {
  }

  lemma LayoutAfter(layout: seq<nat>, i: nat)
    requires Distinct(layout) && i < |layout|
    ensures var layout' := layout[..i] + layout[i + 1..];
      Distinct(layout') && forall b :: b in layout' <==> b in layout && b != layout[i]
  {
  }

  function Skip(p: seq<nat>, e: nat): seq<nat> {
    if p == [] then [] else (if p[0] == e then [] else [p[0]]) + Skip(p[1..], e)
  }

  lemma {:induction false} SkipTrace(p: seq<nat>, e: nat, hasOps: set<nat>)
    requires e !in hasOps
    ensures Trace(Skip(p, e), hasOps) == Trace(p, hasOps)
  {
    if p != [] {
      SkipTrace(p[1..], e, hasOps);
      if p[0] != e {
        assert Skip(p, e) == [p[0]] + Skip(p[1..], e);
        assert Skip(p, e)[1..] == Skip(p[1..], e);
      } else {
        assert Skip(p, e) == Skip(p[1..], e);
      }
    }
  }

  lemma WalkTail(layout: seq<nat>, dest: Arcs, p: seq<nat>)
    requires Walk(layout, dest, p) && p != []
    ensures Walk(layout, dest, p[1..])
    ensures |p| > 1 ==> Edge(dest, p[0], p[1])
  {
  }

  lemma WalkCons(layout: seq<nat>, dest: Arcs, a: nat, p: seq<nat>)
    requires Walk(layout, dest, p) && a in layout && (p != [] ==> Edge(dest, a, p[0]))
    ensures Walk(layout, dest, [a] + p)
  {
  }

  /** Skipping the removed block turns a walk of the old graph into one of the new graph. */
  lemma {:induction false} SkipWalk(layout: seq<nat>, dest: Arcs, layout': seq<nat>, dest': Arcs, i: nat,
                                   hasOps: set<nat>, p: seq<nat>)
    requires Removal(layout, dest, layout', dest', i, hasOps) && Walk(layout, dest, p)
    ensures var q := Skip(p, layout[i]);
      && Walk(layout', dest', q)
      && (q != [] ==> q[0] == if p[0] == layout[i] then layout[i + 1] else p[0])
  {
    hide Edge, EmptiesFallThrough;
    if p != [] {
      var e, s := layout[i], layout[i + 1];
      WalkTail(layout, dest, p);
      SkipWalk(layout, dest, layout', dest', i, hasOps, p[1..]);
      LayoutAfter(layout, i);
      var q := Skip(p[1..], e);
      if p[0] == e {
        assert Skip(p, e) == q;
        if |p| > 1 {
          OnlyNext(layout, dest, i, hasOps, p[1]);
        }
      } else {
        if q != [] {
          RemovalEdges(layout, dest, layout', dest', i, hasOps, p[0], q[0]);
        }
        WalkCons(layout', dest', p[0], q);
      }
    }
  }

  /** The only way on from an empty block is the next block, which is a different one. */
  lemma OnlyNext(layout: seq<nat>, dest: Arcs, i: nat, hasOps: set<nat>, b: nat)
    requires Distinct(layout) && EmptiesFallThrough(layout, dest, hasOps) && i < |layout| && layout[i] !in hasOps
    ensures i + 1 < |layout| && layout[i + 1] != layout[i]
    ensures Edge(dest, layout[i], b) <==> b == layout[i + 1]
  {
    assert dest[layout[i]][0] in dest[layout[i]];
  }

  /** Putting the removed block back where an arc was redirected gives a walk of the old graph. */
  lemma {:induction false} Unskip(layout: seq<nat>, dest: Arcs, layout': seq<nat>, dest': Arcs, i: nat,
                                 hasOps: set<nat>, q: seq<nat>) returns (p: seq<nat>)
    requires Removal(layout, dest, layout', dest', i, hasOps) && Walk(layout', dest', q)
    ensures Walk(layout, dest, p) && Skip(p, layout[i]) == q
    ensures if q == [] then p == [] else p != [] && p[0] == q[0]
    decreases |q|
  {
    hide Edge, EmptiesFallThrough;
    p := [];
    if q != [] {
      var e, s := layout[i], layout[i + 1];
      WalkTail(layout', dest', q);
      LayoutAfter(layout, i);
      var tail := Unskip(layout, dest, layout', dest', i, hasOps, q[1..]);
      if |q| > 1 {
        RemovalEdges(layout, dest, layout', dest', i, hasOps, q[0], q[1]);
        if !Edge(dest, q[0], q[1]) {
          OnlyNext(layout, dest, i, hasOps, q[1]);
          WalkCons(layout, dest, e, tail);
          assert ([e] + tail)[1..] == tail;
          tail := [e] + tail;
        }
      }
      assert q[0] in layout';
      WalkCons(layout, dest, q[0], tail);
      p := [q[0]] + tail;
      assert p[1..] == tail && q == [q[0]] + q[1..];
    }
  }

  /** One removal keeps exactly the traces. */
  lemma RemovalKeepsTraces(layout: seq<nat>, dest: Arcs, layout': seq<nat>, dest': Arcs, i: nat,
                           hasOps: set<nat>, t: seq<nat>)
    requires Removal(layout, dest, layout', dest', i, hasOps)
    ensures HasTrace(layout, dest, hasOps, t) <==> HasTrace(layout', dest', hasOps, t)
  {
    hide Walk, Edge, EmptiesFallThrough;
    var e := layout[i];
    assert layout'[0] == if i == 0 then layout[1] else layout[0];
    OnlyNext(layout, dest, i, hasOps, layout[i + 1]);
    if p :| EntryWalk(layout, dest, p) && Trace(p, hasOps) == t {
      SkipWalk(layout, dest, layout', dest', i, hasOps, p);
      SkipTrace(p, e, hasOps);
      assert EntryWalk(layout', dest', Skip(p, e));
    }
    if q :| EntryWalk(layout', dest', q) && Trace(q, hasOps) == t {
      var p := Unskip(layout, dest, layout', dest', i, hasOps, q);
      SkipTrace(p, e, hasOps);
      if i == 0 && q != [] {
        WalkCons(layout, dest, e, p);
        assert ([e] + p)[1..] == p;
        p := [e] + p;
      }
      assert EntryWalk(layout, dest, p) && Trace(p, hasOps) == t;
    }
  }

  /** One removal leaves a graph without dangling arcs. */
  lemma UnlinkKeepsShape(layout: seq<nat>, dest: Arcs, layout': seq<nat>, dest': Arcs, i: nat, hasOps: set<nat>)
    requires Unlinks(layout, dest, layout', dest', i, hasOps)
    ensures ValidDest(layout', dest')
  {
    LayoutAfter(layout, i);
    var e, s := layout[i], layout[i + 1];
    forall b, f | b in layout' && f in dest'[b]
      ensures f.src == b && f.dst in layout'
    {
      assert RedirectedDst(dest[b], dest'[b], e, s);
      var k :| 0 <= k < |dest'[b]| && dest'[b][k] == f;
      assert dest[b][k] in dest[b];
    }
  }

  /** One removal leaves a graph of the same kind. */
  lemma RemovalKeepsShape(layout: seq<nat>, dest: Arcs, layout': seq<nat>, dest': Arcs, i: nat, hasOps: set<nat>)
    requires Removal(layout, dest, layout', dest', i, hasOps)
    ensures EmptiesFallThrough(layout', dest', hasOps)
  {
  }

  // ----- the pass -----

  /** Redirects the arcs of block b from e to s, together with the operands of their branches;
      an arc without a branch is taken to fall through. */
  method RedirectBlock(g: FlowGraph, b: nat, e: nat, s: nat)
    requires b in g.dest && b in g.targets && InStep(g.dest[b], g.targets[b])
    modifies g`dest, g`targets
    ensures g.dest.Keys == old(g.dest.Keys) && g.targets.Keys == old(g.targets.Keys)
    ensures forall x :: x in g.dest && x != b ==> g.dest[x] == old(g.dest)[x]
    ensures forall x :: x in g.targets && x != b ==> g.targets[x] == old(g.targets)[x]
    ensures InStep(g.dest[b], g.targets[b]) && |g.targets[b]| == |old(g.targets)[b]|
    ensures RedirectedList(old(g.dest)[b], g.dest[b], |g.targets[b]|, b in g.registerJump, e, s)
  {
    var flows: seq<Flow>, ops: seq<nat> := g.dest[b], g.targets[b];
    for i := 0 to |flows|
      invariant |flows| == |old(g.dest)[b]| && |ops| == |old(g.targets)[b]|
      invariant InStep(flows, ops)
      invariant forall k :: 0 <= k < i ==>
        flows[k] == Redirect(old(g.dest)[b][k], FallsThrough(|ops|, b in g.registerJump, k), e, s)
      invariant forall k :: i <= k < |flows| ==> flows[k] == old(g.dest)[b][k]
    {
      if flows[i].dst == e {
        flows := flows[i := flows[i].(dst := s)];
        if i >= |ops| && b !in g.registerJump {
          flows := flows[i := flows[i].(cc := 0)];
        } else if i < |ops| && ops[i] == e {
          ops := ops[i := s];
        }
      }
    }
    g.dest, g.targets := g.dest[b := flows], g.targets[b := ops];
  }

  /** An arc after the pass from what it was before: an arc into an empty block goes to the next
      block that is not empty, and its condition code is cleared if it has no branch. */
  ghost predicate Forwarded(f: Flow, g: Flow, target: Option<nat>, fallThrough: bool) {
    && target == Some(g.dst) && g.src == f.src
    && g.cc == if f.dst != g.dst && fallThrough then 0 else f.cc
  }

  /** The first block of the list that is not empty. */
  ghost function FirstKept(s: seq<nat>, hasOps: set<nat>): Option<nat> {
    if s == [] then None else if s[0] in hasOps then Some(s[0]) else FirstKept(s[1..], hasOps)
  }

  /** The first block from d on that is not empty. */
  ghost function Next(layout: seq<nat>, hasOps: set<nat>, d: nat): Option<nat> {
    if layout == [] then None
    else if layout[0] == d then FirstKept(layout, hasOps)
    else Next(layout[1..], hasOps, d)
  }

  /** t is the first block from d on, in layout order, that is not empty. */
  ghost predicate FirstFrom(layout: seq<nat>, hasOps: set<nat>, d: nat, t: nat) {
    exists i, j :: 0 <= i <= j < |layout| && layout[i] == d && layout[j] == t && KeptFirst(layout, hasOps, i, j)
  }

  ghost predicate KeptFirst(layout: seq<nat>, hasOps: set<nat>, i: nat, j: nat)
    requires i <= j < |layout|
  {
    layout[j] in hasOps && forall m :: i <= m < j ==> layout[m] !in hasOps
  }

  lemma {:induction false} FirstKeptIs(s: seq<nat>, hasOps: set<nat>, t: nat)
    ensures FirstKept(s, hasOps) == Some(t) <==> exists j :: 0 <= j < |s| && s[j] == t && KeptFirst(s, hasOps, 0, j)
  {
    if s != [] && s[0] !in hasOps {
      FirstKeptIs(s[1..], hasOps, t);
      if j :| 0 <= j < |s| && s[j] == t && KeptFirst(s, hasOps, 0, j) {
        assert KeptFirst(s[1..], hasOps, 0, j - 1);
      }
      if j :| 0 <= j < |s[1..]| && s[1..][j] == t && KeptFirst(s[1..], hasOps, 0, j) {
        var k := j + 1;
        assert s[k] == t && forall m :: 1 <= m < k ==> s[m] == s[1..][m - 1];
        assert KeptFirst(s, hasOps, 0, k);
      }
    } else if s != [] {
      assert s[0] == t ==> KeptFirst(s, hasOps, 0, 0);
    }
  }

  /** Where an arc ends up, by positions in the layout. */
  lemma {:induction false} NextIs(layout: seq<nat>, hasOps: set<nat>, d: nat, t: nat)
    requires Distinct(layout)
    ensures Next(layout, hasOps, d) == Some(t) <==> FirstFrom(layout, hasOps, d, t)
  {
    if layout != [] {
      var tail := layout[1..];
      if layout[0] == d {
        FirstKeptIs(layout, hasOps, t);
      } else {
        NextIs(tail, hasOps, d, t);
        if i, j :| 0 <= i <= j < |layout| && layout[i] == d && layout[j] == t && KeptFirst(layout, hasOps, i, j) {
          assert tail[i - 1] == d && tail[j - 1] == t && KeptFirst(tail, hasOps, i - 1, j - 1);
        }
        if i, j :| 0 <= i <= j < |tail| && tail[i] == d && tail[j] == t && KeptFirst(tail, hasOps, i, j) {
          TailKept(layout, hasOps, i, j);
        }
      }
    }
  }

  lemma TailKept(layout: seq<nat>, hasOps: set<nat>, i: nat, j: nat)
    requires layout != [] && i <= j < |layout| - 1 && KeptFirst(layout[1..], hasOps, i, j)
    ensures KeptFirst(layout, hasOps, i + 1, j + 1)
  {
    assert forall m :: 1 <= m < |layout| ==> layout[m] == layout[1..][m - 1];
  }

  /** Every arc of a kept block has a block to end up in. */
  ghost predicate TargetsExist(layout: seq<nat>, dest: Arcs, hasOps: set<nat>) {
    forall b, k :: b in layout && b in hasOps && b in dest && 0 <= k < |dest[b]| ==>
      Next(layout, hasOps, dest[b][k].dst).Some?
  }

  lemma {:induction false} FirstKeptCut(s: seq<nat>, i: nat, hasOps: set<nat>)
    requires i < |s| && s[i] !in hasOps
    ensures FirstKept(s[..i] + s[i + 1..], hasOps) == FirstKept(s, hasOps)
    decreases |s|
  {
    if i == 0 {
      assert s[..0] + s[1..] == s[1..];
    } else {
      FirstKeptCut(s[1..], i - 1, hasOps);
      assert (s[..i] + s[i + 1..])[1..] == s[1..][..i - 1] + s[1..][i..];
    }
  }

  lemma FirstKeptStep(s: seq<nat>, hasOps: set<nat>)
    requires s != [] && s[0] !in hasOps
    ensures FirstKept(s, hasOps) == FirstKept(s[1..], hasOps) && (|s| == 1 ==> FirstKept(s, hasOps) == None)
  {
  }

  /** Taking out an empty block does not change where an arc ends up. */
  lemma {:induction false} NextCut(layout: seq<nat>, i: nat, hasOps: set<nat>, d: nat)
    requires Distinct(layout) && i < |layout| && layout[i] !in hasOps
    ensures d != layout[i] ==> Next(layout[..i] + layout[i + 1..], hasOps, d) == Next(layout, hasOps, d)
    ensures i + 1 < |layout| ==>
              Next(layout[..i] + layout[i + 1..], hasOps, layout[i + 1]) == Next(layout, hasOps, layout[i])
    ensures i + 1 == |layout| ==> Next(layout, hasOps, layout[i]) == None
    decreases |layout|
  {
    hide FirstKept;
    var cut, tail := layout[..i] + layout[i + 1..], layout[1..];
    FirstKeptCut(layout, i, hasOps);
    if i == 0 {
      assert cut == tail;
      FirstKeptStep(layout, hasOps);
    } else {
      assert Distinct(tail) && tail[i - 1] == layout[i];
      NextCut(tail, i - 1, hasOps, d);
      assert cut[1..] == tail[..i - 1] + tail[i..];
      assert layout[0] != layout[i];
    }
  }

  lemma {:induction false} NextKept(layout: seq<nat>, hasOps: set<nat>, d: nat)
    requires d in layout && d in hasOps
    ensures Next(layout, hasOps, d) == Some(d)
  {
    if layout[0] != d {
      NextKept(layout[1..], hasOps, d);
    }
  }

  /** An arc in the middle of the pass: it ends up where the original does, and it was changed
      only if its original target is gone. */
  ghost predicate Underway(layout0: seq<nat>, layout: seq<nat>, hasOps: set<nat>, f0: Flow, f: Flow, fallThrough: bool)
  {
    && Next(layout, hasOps, f.dst) == Next(layout0, hasOps, f0.dst)
    && (f == f0 || (f0.dst !in layout && f.src == f0.src && f.cc == if fallThrough then 0 else f0.cc))
  }

  ghost predicate AllUnderway(layout0: seq<nat>, dest0: Arcs, layout: seq<nat>, g: FlowGraph)
    reads g
  {
    forall b :: b in layout ==>
      && b in layout0 && b in dest0 && b in g.dest && b in g.targets
      && |g.dest[b]| == |dest0[b]|
      && forall k :: 0 <= k < |dest0[b]| ==>
           Underway(layout0, layout, g.hasOps, dest0[b][k], g.dest[b][k],
                    FallsThrough(|g.targets[b]|, b in g.registerJump, k))
  }

  /** One redirection keeps an arc on its way. */
  lemma UnderwayStep(layout0: seq<nat>, layout: seq<nat>, i: nat, hasOps: set<nat>, f0: Flow, f: Flow,
                     fallThrough: bool)
    requires Distinct(layout) && i + 1 < |layout| && layout[i] !in hasOps && f.dst in layout
    requires Underway(layout0, layout, hasOps, f0, f, fallThrough)
    ensures Underway(layout0, layout[..i] + layout[i + 1..], hasOps, f0,
                     Redirect(f, fallThrough, layout[i], layout[i + 1]), fallThrough)
  {
    hide Next;
    NextCut(layout, i, hasOps, f.dst);
    LayoutAfter(layout, i);
  }

  lemma UnderwayLast(layout0: seq<nat>, layout: seq<nat>, hasOps: set<nat>, f0: Flow, f: Flow, fallThrough: bool)
    requires Distinct(layout) && layout != [] && layout[|layout| - 1] !in hasOps && f.dst != layout[|layout| - 1]
    requires Underway(layout0, layout, hasOps, f0, f, fallThrough)
    ensures Underway(layout0, layout[..|layout| - 1], hasOps, f0, f, fallThrough)
  {
    hide Next;
    var i := |layout| - 1;
    NextCut(layout, i, hasOps, f.dst);
    LayoutAfter(layout, i);
    assert layout[..i] + layout[i + 1..] == layout[..i];
  }

  /** Redirects the arcs of every block from the empty block at position i to the next block,
      and unlinks it. */
  method RemoveAtPosition(g: FlowGraph, i: nat, ghost layout0: seq<nat>, ghost dest0: Arcs)
    requires ValidDest(g.layout, g.dest) && Branches(g.layout, g.dest, g.targets)
    requires i + 1 < |g.layout| && g.layout[i] !in g.hasOps
    requires AllUnderway(layout0, dest0, g.layout, g)
    modifies g`layout, g`dest, g`targets
    ensures Unlinks(old(g.layout), old(g.dest), g.layout, g.dest, i, g.hasOps)
    ensures ValidDest(g.layout, g.dest) && Branches(g.layout, g.dest, g.targets)
    ensures AllUnderway(layout0, dest0, g.layout, g)
    ensures forall b :: b in g.layout ==> b in old(g.targets) && |g.targets[b]| == |old(g.targets)[b]|
  {
    hide Underway;
    var e, s := g.layout[i], g.layout[i + 1];
    RedirectAll(g, e, s);
    LayoutAfter(g.layout, i);
    ghost var after := g.layout[..i] + g.layout[i + 1..];
    forall b, k | b in after && 0 <= k < |dest0[b]|
      ensures Underway(layout0, after, g.hasOps, dest0[b][k], g.dest[b][k],
                       FallsThrough(|g.targets[b]|, b in g.registerJump, k))
    {
      assert old(g.dest)[b][k] in old(g.dest)[b];
      UnderwayStep(layout0, g.layout, i, g.hasOps, dest0[b][k], old(g.dest)[b][k],
                   FallsThrough(|g.targets[b]|, b in g.registerJump, k));
    }
    g.layout := g.layout[..i] + g.layout[i + 1..];
    UnlinkKeepsShape(old(g.layout), old(g.dest), g.layout, g.dest, i, g.hasOps);
  }

  method RedirectAll(g: FlowGraph, e: nat, s: nat)
    requires ValidDest(g.layout, g.dest) && Branches(g.layout, g.dest, g.targets)
    modifies g`dest, g`targets
    ensures Branches(g.layout, g.dest, g.targets)
    ensures forall b :: b in g.layout ==>
              && b in old(g.targets) && |g.targets[b]| == |old(g.targets)[b]|
              && RedirectedList(old(g.dest)[b], g.dest[b], |g.targets[b]|, b in g.registerJump, e, s)
  {
    for j := 0 to |g.layout|
      invariant Branches(g.layout, g.dest, g.targets)
      invariant forall k :: 0 <= k < |g.layout| ==>
                  && g.layout[k] in g.dest && g.layout[k] in old(g.dest)
                  && g.layout[k] in g.targets && g.layout[k] in old(g.targets)
      invariant forall k :: 0 <= k < j ==>
                  && |g.targets[g.layout[k]]| == |old(g.targets)[g.layout[k]]|
                  && RedirectedList(old(g.dest)[g.layout[k]], g.dest[g.layout[k]], |g.targets[g.layout[k]]|,
                                    g.layout[k] in g.registerJump, e, s)
      invariant forall k :: j <= k < |g.layout| ==>
                  && g.dest[g.layout[k]] == old(g.dest)[g.layout[k]]
                  && g.targets[g.layout[k]] == old(g.targets)[g.layout[k]]
    {
      assert g.layout[j] in g.layout;
      RedirectBlock(g, g.layout[j], e, s);
    }
  }

  /** Unlinks an empty last block.  There is no next block: an arc into it from another block is
      left without a target, which the rebuilding of the source lists does not survive. */
  method RemoveLast(g: FlowGraph, ghost layout0: seq<nat>, ghost dest0: Arcs) returns (ok: bool)
    requires ValidDest(g.layout, g.dest) && Branches(g.layout, g.dest, g.targets)
    requires g.layout != [] && g.layout[|g.layout| - 1] !in g.hasOps
    requires forall j :: 0 <= j < |g.layout| - 1 ==> g.layout[j] in g.hasOps
    requires AllUnderway(layout0, dest0, g.layout, g)
    modifies g`layout
    ensures ok ==> g.layout == old(g.layout)[..|old(g.layout)| - 1] && ValidDest(g.layout, g.dest)
    ensures ok ==> AllUnderway(layout0, dest0, g.layout, g)
    ensures !ok ==> !TargetsExist(layout0, dest0, g.hasOps)
  {
    var n := |g.layout| - 1;
    var e := g.layout[n];
    for j := 0 to n
      invariant forall m, f :: 0 <= m < j && f in g.dest[g.layout[m]] ==> f.dst != e
    {
      var b := g.layout[j];
      for k := 0 to |g.dest[b]|
        invariant forall m :: 0 <= m < k ==> g.dest[b][m].dst != e
      {
        if g.dest[b][k].dst == e {
          NextCut(g.layout, n, g.hasOps, e);
          assert Next(layout0, g.hasOps, dest0[b][k].dst) == None;
          return false;
        }
      }
    }
    LayoutAfter(g.layout, n);
    assert g.layout[..n] + g.layout[n + 1..] == g.layout[..n];
    ghost var after := g.layout[..n];
    forall b, k | b in after && 0 <= k < |dest0[b]|
      ensures Underway(layout0, after, g.hasOps, dest0[b][k], g.dest[b][k],
                       FallsThrough(|g.targets[b]|, b in g.registerJump, k))
    {
      assert g.dest[b][k] in g.dest[b];
      UnderwayLast(layout0, g.layout, g.hasOps, dest0[b][k], g.dest[b][k],
                   FallsThrough(|g.targets[b]|, b in g.registerJump, k));
    }
    g.layout := g.layout[..n];
    return true;
  }

  /** The arcs into d, block by block in layout order. */
  function Incoming(layout: seq<nat>, dest: Arcs, d: nat): seq<Flow>
    requires forall b :: b in layout ==> b in dest
  {
    if layout == [] then []
    else Incoming(layout[..|layout| - 1], dest, d) + Into(dest[layout[|layout| - 1]], d)
  }

  function Into(fs: seq<Flow>, d: nat): seq<Flow> {
    if fs == [] then []
    else Into(fs[..|fs| - 1], d) + if fs[|fs| - 1].dst == d then [fs[|fs| - 1]] else []
  }

  lemma {:induction false} IntoCount(fs: seq<Flow>, d: nat, f: Flow)
    ensures multiset(Into(fs, d))[f] == if f.dst == d then multiset(fs)[f] else 0
  {
    if fs != [] {
      var n := |fs| - 1;
      IntoCount(fs[..n], d, f);
      assert fs == fs[..n] + [fs[n]];
    }
  }

  lemma {:induction false} IncomingCount(layout: seq<nat>, dest: Arcs, d: nat, f: Flow)
    requires Distinct(layout) && forall b :: b in layout ==> b in dest
    requires forall b, x :: b in layout && x in dest[b] ==> x.src == b
    ensures multiset(Incoming(layout, dest, d))[f] ==
            if f.src in layout && f.dst == d then multiset(dest[f.src])[f] else 0
  {
    if layout != [] {
      var n := |layout| - 1;
      var b := layout[n];
      assert layout == layout[..n] + [b];
      IncomingCount(layout[..n], dest, d, f);
      IntoCount(dest[b], d, f);
      assert f.src != b ==> f !in dest[b];
    }
  }

  /** Rebuilding the source lists from the destination lists gives their transpose. */
  method RebuildSrcFlow(g: FlowGraph)
    requires ValidDest(g.layout, g.dest)
    modifies g`src
    ensures Mirror(g.layout, g.dest, g.src)
    ensures forall d :: d in g.layout ==> g.src[d] == Incoming(g.layout, g.dest, d)
  {
    for i := 0 to |g.layout|
      invariant forall j :: 0 <= j < i ==> g.layout[j] in g.src && g.src[g.layout[j]] == []
    {
      g.src := g.src[g.layout[i] := []];
    }
    for i := 0 to |g.layout|
      invariant forall d :: d in g.layout ==> d in g.src && g.src[d] == Incoming(g.layout[..i], g.dest, d)
    {
      var b := g.layout[i];
      assert b in g.layout;
      AppendFlows(g, b);
      assert g.layout[..i + 1][..i] == g.layout[..i];
    }
    assert g.layout[..|g.layout|] == g.layout;
    forall d, f | d in g.layout
      ensures MirrorAt(g.layout, g.dest, g.src, d, f)
    {
      IncomingCount(g.layout, g.dest, d, f);
    }
  }

  method AppendFlows(g: FlowGraph, b: nat)
    requires ValidDest(g.layout, g.dest) && b in g.layout && forall d :: d in g.layout ==> d in g.src
    modifies g`src
    ensures forall d :: d in g.layout ==> d in g.src && g.src[d] == old(g.src)[d] + Into(g.dest[b], d)
  {
    var fs := g.dest[b];
    for k := 0 to |fs|
      invariant forall d :: d in g.layout ==> d in g.src && g.src[d] == old(g.src)[d] + Into(fs[..k], d)
    {
      assert fs[k] in fs && fs[..k + 1][..k] == fs[..k];
      var d := fs[k].dst;
      g.src := g.src[d := g.src[d] + [fs[k]]];
    }
    assert fs[..|fs|] == fs;
  }

  lemma {:induction false} NextExists(layout: seq<nat>, hasOps: set<nat>, d: nat)
    requires d in layout && layout[|layout| - 1] in hasOps
    ensures FirstKept(layout, hasOps).Some? && Next(layout, hasOps, d).Some?
  {
    if |layout| > 1 {
      NextExists(layout[1..], hasOps, if layout[0] == d then layout[|layout| - 1] else d);
    }
  }

  lemma LastIsKept(layout: seq<nat>, dest: Arcs, hasOps: set<nat>)
    requires layout != [] && layout[|layout| - 1] !in hasOps
    ensures !EmptiesFallThrough(layout, dest, hasOps)
  {
  }

  /** Empty blocks that fall through leave every arc a target. */
  lemma FallThroughHasTargets(layout: seq<nat>, dest: Arcs, hasOps: set<nat>)
    requires ValidDest(layout, dest) && EmptiesFallThrough(layout, dest, hasOps)
    ensures TargetsExist(layout, dest, hasOps)
  {
    forall b, k | b in layout && b in hasOps && 0 <= k < |dest[b]|
      ensures Next(layout, hasOps, dest[b][k].dst).Some?
    {
      assert dest[b][k] in dest[b];
      assert layout[|layout| - 1] in hasOps;
      NextExists(layout, hasOps, dest[b][k].dst);
    }
  }

  lemma {:induction false} TraceCut(s: seq<nat>, i: nat, hasOps: set<nat>)
    requires i < |s| && s[i] !in hasOps
    ensures Trace(s[..i] + s[i + 1..], hasOps) == Trace(s, hasOps)
    decreases |s|
  {
    if i == 0 {
      assert s[..0] + s[1..] == s[1..];
    } else {
      TraceCut(s[1..], i - 1, hasOps);
      assert (s[..i] + s[i + 1..])[1..] == s[1..][..i - 1] + s[1..][i..];
    }
  }

  lemma {:induction false} TraceOfKept(s: seq<nat>, hasOps: set<nat>)
    requires forall i :: 0 <= i < |s| ==> s[i] in hasOps
    ensures Trace(s, hasOps) == s
  {
    if s != [] {
      TraceOfKept(s[1..], hasOps);
    }
  }

  /** The arcs of block b after the pass. */
  ghost predicate ForwardedList(layout0: seq<nat>, hasOps: set<nat>, fs0: seq<Flow>, fs: seq<Flow>, targets: nat,
                                registerJump: bool)
  {
    && |fs| == |fs0|
    && forall k :: 0 <= k < |fs0| ==>
         Forwarded(fs0[k], fs[k], Next(layout0, hasOps, fs0[k].dst), FallsThrough(targets, registerJump, k))
  }

  /** The arcs of block b after the pass, told by its branches: every arc goes to the first non-empty
      block from its target on; the condition code of an arc with a branch stays, that of an arc
      without one is cleared when the arc has been sent on. */
  ghost predicate SentOn(layout0: seq<nat>, hasOps: set<nat>, fs0: seq<Flow>, fs: seq<Flow>, targets: nat,
                         registerJump: bool)
  {
    |fs| == |fs0| &&
    forall k :: 0 <= k < |fs0| ==>
      && FirstFrom(layout0, hasOps, fs0[k].dst, fs[k].dst) && fs[k].src == fs0[k].src
      && (registerJump || k < targets ==> fs[k].cc == fs0[k].cc)
      && (!registerJump && k >= targets ==> fs[k].cc == if fs[k].dst != fs0[k].dst then 0 else fs0[k].cc)
  }

  lemma ForwardedIsSentOn(layout0: seq<nat>, hasOps: set<nat>, fs0: seq<Flow>, fs: seq<Flow>, targets: nat,
                          registerJump: bool)
    requires Distinct(layout0) && ForwardedList(layout0, hasOps, fs0, fs, targets, registerJump)
    ensures SentOn(layout0, hasOps, fs0, fs, targets, registerJump)
  {
    hide Next, FirstFrom;
    forall k | 0 <= k < |fs0|
      ensures FirstFrom(layout0, hasOps, fs0[k].dst, fs[k].dst)
    {
      NextIs(layout0, hasOps, fs0[k].dst, fs[k].dst);
    }
  }

  /** Every arc of a kept block has a non-empty block at or after its target. */
  ghost predicate Reachable(layout: seq<nat>, dest: Arcs, hasOps: set<nat>) {
    forall b, k :: b in layout && b in hasOps && b in dest && 0 <= k < |dest[b]| ==>
      GoesOn(layout, hasOps, dest[b][k].dst)
  }

  ghost predicate GoesOn(layout: seq<nat>, hasOps: set<nat>, d: nat) {
    exists t :: FirstFrom(layout, hasOps, d, t)
  }

  lemma GoesOnIs(layout: seq<nat>, hasOps: set<nat>, d: nat)
    requires Distinct(layout)
    ensures Next(layout, hasOps, d).Some? <==> GoesOn(layout, hasOps, d)
  {
    hide Next, FirstFrom;
    var next := Next(layout, hasOps, d);
    if next.Some? {
      NextIs(layout, hasOps, d, next.value);
    }
    if t :| FirstFrom(layout, hasOps, d, t) {
      NextIs(layout, hasOps, d, t);
    }
  }

  lemma TargetsExistIs(layout: seq<nat>, dest: Arcs, hasOps: set<nat>)
    requires Distinct(layout)
    ensures TargetsExist(layout, dest, hasOps) <==> Reachable(layout, dest, hasOps)
  {
    hide Next, GoesOn;
    forall d
      ensures Next(layout, hasOps, d).Some? <==> GoesOn(layout, hasOps, d)
    {
      GoesOnIs(layout, hasOps, d);
    }
  }

  /** Nothing is underway any more once every block is kept. */
  lemma Arrived(layout0: seq<nat>, dest0: Arcs, g: FlowGraph)
    requires ValidDest(g.layout, g.dest) && AllUnderway(layout0, dest0, g.layout, g)
    requires forall i :: 0 <= i < |g.layout| ==> g.layout[i] in g.hasOps
    ensures forall b :: b in g.layout ==>
              && b in dest0 && b in g.targets
              && ForwardedList(layout0, g.hasOps, dest0[b], g.dest[b], |g.targets[b]|, b in g.registerJump)
  {
    hide Next;
    forall b, k | b in g.layout && 0 <= k < |dest0[b]|
      ensures Forwarded(dest0[b][k], g.dest[b][k], Next(layout0, g.hasOps, dest0[b][k].dst),
                        FallsThrough(|g.targets[b]|, b in g.registerJump, k))
    {
      assert g.dest[b][k] in g.dest[b];
      NextKept(g.layout, g.hasOps, g.dest[b][k].dst);
    }
  }

  lemma {:induction false} TraceMembers(s: seq<nat>, hasOps: set<nat>)
    ensures forall b :: b in Trace(s, hasOps) <==> b in s && b in hasOps
  {
    if s != [] {
      TraceMembers(s[1..], hasOps);
      assert s == [s[0]] + s[1..];
    }
  }

  /** Arcs that arrived had a target from the start. */
  lemma ArrivedSomewhere(layout0: seq<nat>, dest0: Arcs, dest: Arcs, hasOps: set<nat>)
    requires forall b :: b in Trace(layout0, hasOps) ==>
               b in dest && b in dest0 && exists n, r :: ForwardedList(layout0, hasOps, dest0[b], dest[b], n, r)
    ensures TargetsExist(layout0, dest0, hasOps)
  {
    hide Next;
    TraceMembers(layout0, hasOps);
    forall b, k | b in layout0 && b in hasOps && b in dest0 && 0 <= k < |dest0[b]|
      ensures Next(layout0, hasOps, dest0[b][k].dst).Some?
    {
      assert b in Trace(layout0, hasOps);
      var n, r :| ForwardedList(layout0, hasOps, dest0[b], dest[b], n, r);
      assert Forwarded(dest0[b][k], dest[b][k], Next(layout0, hasOps, dest0[b][k].dst), FallsThrough(n, r, k));
    }
  }

  lemma NothingMoved(g: FlowGraph)
    requires ValidDest(g.layout, g.dest) && Branches(g.layout, g.dest, g.targets)
    ensures AllUnderway(g.layout, g.dest, g.layout, g)
  {
  }

  /** The removal loop.  It succeeds exactly when every arc of a kept block has a target. */
  method RemoveAll(g: FlowGraph) returns (ok: bool)
    requires ValidDest(g.layout, g.dest) && Branches(g.layout, g.dest, g.targets)
    modifies g`layout, g`dest, g`targets
    ensures ok <==> old(TargetsExist(g.layout, g.dest, g.hasOps))
    ensures ok ==> ValidDest(g.layout, g.dest) && Branches(g.layout, g.dest, g.targets)
    ensures ok ==> g.layout == Trace(old(g.layout), g.hasOps)
    ensures ok ==> forall b :: b in g.layout ==>
              && b in old(g.dest) && b in g.targets
              && ForwardedList(old(g.layout), g.hasOps, old(g.dest)[b], g.dest[b], |g.targets[b]|, b in g.registerJump)
    ensures ok ==> forall b :: b in g.layout ==> b in old(g.targets) && |g.targets[b]| == |old(g.targets)[b]|
    ensures old(EmptiesFallThrough(g.layout, g.dest, g.hasOps)) ==>
              ok && forall t :: HasTrace(g.layout, g.dest, g.hasOps, t) <==>
                                HasTrace(old(g.layout), old(g.dest), g.hasOps, t)
  {
    hide Next, Trace, HasTrace, EmptiesFallThrough, Underway, ForwardedList, TargetsExist;
    ghost var layout0, dest0 := g.layout, g.dest;
    NothingMoved(g);
    if EmptiesFallThrough(layout0, dest0, g.hasOps) {
      FallThroughHasTargets(layout0, dest0, g.hasOps);
    }
    var i := 0;
    while i < |g.layout|
      invariant i <= |g.layout|
      invariant ValidDest(g.layout, g.dest) && Branches(g.layout, g.dest, g.targets)
      invariant AllUnderway(layout0, dest0, g.layout, g)
      invariant forall j :: 0 <= j < i ==> g.layout[j] in g.hasOps
      invariant forall b :: b in g.layout ==>
                  b in g.targets && b in old(g.targets) && |g.targets[b]| == |old(g.targets)[b]|
      invariant Trace(g.layout, g.hasOps) == Trace(layout0, g.hasOps)
      invariant EmptiesFallThrough(layout0, dest0, g.hasOps) ==>
                  && EmptiesFallThrough(g.layout, g.dest, g.hasOps)
                  && forall t :: HasTrace(g.layout, g.dest, g.hasOps, t) <==> HasTrace(layout0, dest0, g.hasOps, t)
      decreases |g.layout| - i
    {
      if g.layout[i] !in g.hasOps {
        ghost var layout, dest := g.layout, g.dest;
        TraceCut(layout, i, g.hasOps);
        if i + 1 < |g.layout| {
          RemoveAtPosition(g, i, layout0, dest0);
          if EmptiesFallThrough(layout, dest, g.hasOps) {
            RemovalKeepsShape(layout, dest, g.layout, g.dest, i, g.hasOps);
            forall t
              ensures HasTrace(g.layout, g.dest, g.hasOps, t) <==> HasTrace(layout, dest, g.hasOps, t)
            {
              RemovalKeepsTraces(layout, dest, g.layout, g.dest, i, g.hasOps, t);
            }
          }
        } else {
          LastIsKept(layout, dest, g.hasOps);
          assert layout[..i] + layout[i + 1..] == layout[..i];
          ok := RemoveLast(g, layout0, dest0);
          if !ok {
            return;
          }
        }
      } else {
        i := i + 1;
      }
    }
    ok := true;
    Arrived(layout0, dest0, g);
    TraceOfKept(g.layout, g.hasOps);
    ArrivedSomewhere(layout0, dest0, g.dest, g.hasOps);
  }

  /** Removes every empty block and rebuilds the source lists as the transpose of the destination
      lists.  When the empty blocks fall through, the walks from the entry show the same sequences
      of non-empty blocks as before. */
  method RemoveEmptyBlocks(g: FlowGraph) returns (ok: bool)
    requires ValidDest(g.layout, g.dest) && Branches(g.layout, g.dest, g.targets)
    modifies g`layout, g`dest, g`targets, g`src
    ensures ok <==> old(TargetsExist(g.layout, g.dest, g.hasOps))
    ensures ok <==> old(Reachable(g.layout, g.dest, g.hasOps))
    ensures ok ==> ValidDest(g.layout, g.dest) && Branches(g.layout, g.dest, g.targets)
    ensures ok ==> Mirror(g.layout, g.dest, g.src)
    ensures ok ==> g.layout == Trace(old(g.layout), g.hasOps)
    ensures ok ==> forall b :: b in g.layout ==>
              && b in old(g.dest) && b in g.targets
              && ForwardedList(old(g.layout), g.hasOps, old(g.dest)[b], g.dest[b], |g.targets[b]|, b in g.registerJump)
    ensures ok ==> forall b :: b in g.layout ==>
              && b in old(g.targets) && |g.targets[b]| == |old(g.targets)[b]|
              && SentOn(old(g.layout), g.hasOps, old(g.dest)[b], g.dest[b], |old(g.targets)[b]|, b in g.registerJump)
    ensures old(EmptiesFallThrough(g.layout, g.dest, g.hasOps)) ==>
              ok && forall t :: HasTrace(g.layout, g.dest, g.hasOps, t) <==>
                                HasTrace(old(g.layout), old(g.dest), g.hasOps, t)
  {
    hide HasTrace, EmptiesFallThrough, ForwardedList, TargetsExist, Trace, SentOn, Reachable;
    ghost var layout0, dest0 := g.layout, g.dest;
    TargetsExistIs(layout0, dest0, g.hasOps);
    ok := RemoveAll(g);
    if ok {
      forall b | b in g.layout
        ensures SentOn(layout0, g.hasOps, dest0[b], g.dest[b], |g.targets[b]|, b in g.registerJump)
      {
        ForwardedIsSentOn(layout0, g.hasOps, dest0[b], g.dest[b], |g.targets[b]|, b in g.registerJump);
      }
      RebuildSrcFlow(g);
    }
  }
}
