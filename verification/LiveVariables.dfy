/** Global propagation of live variables and what its result means. */
module LiveVariables {
  import opened Collections
  import opened BoolFunc
  import opened BdfGraph
  import opened BdfLiveness

  /** Gen set of every block and kill set of every exit. */
  datatype LocalSets = LocalSets(g: seq<set<int>>, k: seq<seq<set<int>>>)

  ghost predicate Fits(blocks: seq<Block>, s: LocalSets) {
    && |s.g| == |s.k| == |blocks|
    && (forall n :: 0 <= n < |blocks| ==> |s.k[n]| == |blocks[n].exits|)
    && (forall n, a :: 0 <= n < |blocks| && a in blocks[n].exits ==> a.succ < |blocks|)
  }

  /** The sets are the ones the local phase computes. */
  ghost predicate Exact(one: Func, blocks: seq<Block>, s: LocalSets)
    requires ValidGraph(one, blocks) && Fits(blocks, s)
  {
    forall n :: 0 <= n < |blocks| ==> ExactAt(one, blocks, s, n)
  }

  ghost predicate ExactAt(one: Func, blocks: seq<Block>, s: LocalSets, n: nat)
    requires ValidGraph(one, blocks) && Fits(blocks, s) && n < |blocks|
  {
    assert blocks[n] in blocks;
    && IsGenSet(one, blocks[n], s.g[n])
    && forall j :: 0 <= j < |blocks[n].exits| ==> IsKillSet(blocks[n], blocks[n].exits[j], s.k[n][j])
  }

  // ----- least fixpoint, by paths -----

  /** The exits in `path` lead from block n, without killing r, to a block that generates r. */
  ghost predicate LivePath(blocks: seq<Block>, s: LocalSets, n: nat, r: int, path: seq<nat>)
    requires Fits(blocks, s) && n < |blocks|
    decreases |path|
  {
    if path == [] then r in s.g[n]
    else
      && path[0] < |blocks[n].exits|
      && r !in s.k[n][path[0]]
      && LivePath(blocks, s, Succ(blocks, s, n, path[0]), r, path[1..])
  }

  function Succ(blocks: seq<Block>, ghost s: LocalSets, n: nat, j: nat): (m: nat)
    requires Fits(blocks, s) && n < |blocks| && j < |blocks[n].exits|
    ensures m < |blocks|
  {
    assert blocks[n].exits[j] in blocks[n].exits;
    blocks[n].exits[j].succ
  }

  ghost predicate OnLivePath(blocks: seq<Block>, s: LocalSets, n: nat, r: int)
    requires Fits(blocks, s) && n < |blocks|
  {
    exists path :: LivePath(blocks, s, n, r, path)
  }

  /** r is generated by block n or comes up through one of its exits. */
  ghost predicate Incoming(blocks: seq<Block>, s: LocalSets, vIn: seq<set<int>>, n: nat, r: int)
    requires Fits(blocks, s) && |vIn| == |blocks| && n < |blocks|
  {
    r in s.g[n] || exists j :: 0 <= j < |blocks[n].exits| && ThroughExit(blocks, s, vIn, n, j, r)
  }

  ghost predicate ThroughExit(blocks: seq<Block>, s: LocalSets, vIn: seq<set<int>>, n: nat, j: nat, r: int)
    requires Fits(blocks, s) && |vIn| == |blocks| && n < |blocks| && j < |blocks[n].exits|
  {
    r in vIn[Succ(blocks, s, n, j)] && r !in s.k[n][j]
  }

  /** What every state of the propagation satisfies: nothing is claimed live without a path,
      and every claim is still justified by the current sets. */
  ghost predicate Justified(blocks: seq<Block>, s: LocalSets, vIn: seq<set<int>>)
    requires Fits(blocks, s)
  {
    && |vIn| == |blocks|
    && (forall n, r :: 0 <= n < |blocks| && r in vIn[n] ==> OnLivePath(blocks, s, n, r))
    && (forall n, r :: 0 <= n < |blocks| && r in vIn[n] ==> Incoming(blocks, s, vIn, n, r))
    && (forall n :: 0 <= n < |blocks| ==> s.g[n] <= vIn[n] <= Universe(s))
  }

  ghost predicate ClosedAt(blocks: seq<Block>, s: LocalSets, vIn: seq<set<int>>, n: nat)
    requires Fits(blocks, s) && |vIn| == |blocks| && n < |blocks|
  {
    forall r :: Incoming(blocks, s, vIn, n, r) ==> r in vIn[n]
  }

  ghost function Universe(s: LocalSets): set<int> {
    set n, r | 0 <= n < |s.g| && r in s.g[n] :: r
  }

  lemma IncomingIsLive(blocks: seq<Block>, s: LocalSets, vIn: seq<set<int>>, n: nat, r: int)
    requires Fits(blocks, s) && Justified(blocks, s, vIn) && n < |blocks|
    requires Incoming(blocks, s, vIn, n, r)
    ensures OnLivePath(blocks, s, n, r) && r in Universe(s)
  {
    if r in s.g[n] {
      assert LivePath(blocks, s, n, r, []);
    } else {
      var j :| 0 <= j < |blocks[n].exits| && ThroughExit(blocks, s, vIn, n, j, r);
      var m := Succ(blocks, s, n, j);
      var path :| LivePath(blocks, s, m, r, path);
      assert ([j] + path)[1..] == path;
      assert LivePath(blocks, s, n, r, [j] + path);
      assert vIn[m] <= Universe(s);
    }
  }

  lemma {:induction false} ClosedContainsPaths(blocks: seq<Block>, s: LocalSets, vIn: seq<set<int>>,
                                              n: nat, r: int, path: seq<nat>)
    requires Fits(blocks, s) && |vIn| == |blocks| && n < |blocks|
    requires forall m :: 0 <= m < |blocks| ==> ClosedAt(blocks, s, vIn, m)
    requires LivePath(blocks, s, n, r, path)
    ensures r in vIn[n]
    decreases |path|
  {
    if path != [] {
      ClosedContainsPaths(blocks, s, vIn, Succ(blocks, s, n, path[0]), r, path[1..]);
      assert ThroughExit(blocks, s, vIn, n, path[0], r);
    }
    assert ClosedAt(blocks, s, vIn, n) && Incoming(blocks, s, vIn, n, r);
  }

  lemma ClosedIsExact(blocks: seq<Block>, s: LocalSets, vIn: seq<set<int>>)
    requires Fits(blocks, s) && Justified(blocks, s, vIn)
    requires forall n :: 0 <= n < |blocks| ==> ClosedAt(blocks, s, vIn, n)
    ensures forall n, r :: 0 <= n < |blocks| ==> (r in vIn[n] <==> OnLivePath(blocks, s, n, r))
  {
    forall n, r | 0 <= n < |blocks| && OnLivePath(blocks, s, n, r)
      ensures r in vIn[n]
    {
      var path :| LivePath(blocks, s, n, r, path);
      ClosedContainsPaths(blocks, s, vIn, n, r, path);
    }
  }

  // ----- termination measure -----

  ghost function Missing(u: set<int>, vIn: seq<set<int>>): nat {
    if vIn == [] then 0 else |u - vIn[0]| + Missing(u, vIn[1..])
  }

  lemma {:induction false} MissingDrops(u: set<int>, vIn: seq<set<int>>, n: nat, bigger: set<int>)
    requires n < |vIn| && vIn[n] < bigger <= u
    ensures Missing(u, vIn[n := bigger]) < Missing(u, vIn)
  {
    var after := vIn[n := bigger];
    if n == 0 {
      assert after[1..] == vIn[1..];
      var r := Outside(bigger, vIn[0]);
      Shrinks(u - bigger, u - vIn[0], r);
    } else {
      assert after[1..] == vIn[1..][n - 1 := bigger];
      MissingDrops(u, vIn[1..], n - 1, bigger);
    }
  }

  // ----- the algorithm -----

  class LiveFlow {
    const one: Func
    const blocks: seq<Block>
    var sets: LocalSets
    var vIn: seq<set<int>>

    constructor (one: Func, blocks: seq<Block>)
      ensures this.one == one && this.blocks == blocks
    {
      this.one := one;
      this.blocks := blocks;
      sets := LocalSets([], []);
      vIn := [];
    }

    /** Recomputes one block's live-in set; it is replaced only when it would grow. */
    method PropUp(n: nat) returns (changed: bool)
      requires Fits(blocks, sets) && Justified(blocks, sets, vIn) && n < |blocks|
      modifies this`vIn
      ensures Justified(blocks, sets, vIn)
      ensures changed <==> !old(ClosedAt(blocks, sets, vIn, n))
      ensures !changed ==> vIn == old(vIn)
      ensures changed ==> Missing(Universe(sets), vIn) < Missing(Universe(sets), old(vIn))
    {
      var exits := blocks[n].exits;
      var newIn := {};
      for j := 0 to |exits|
        invariant forall r :: r in newIn <==> exists i :: 0 <= i < j && ThroughExit(blocks, sets, vIn, n, i, r)
      {
        var path := vIn[Succ(blocks, sets, n, j)];
        path := path - sets.k[n][j];
        assert forall r :: r in path <==> ThroughExit(blocks, sets, vIn, n, j, r);
        newIn := newIn + path;
      }
      newIn := newIn + sets.g[n];
      assert forall r :: r in newIn <==> Incoming(blocks, sets, vIn, n, r);
      changed := !(newIn <= vIn[n]);
      if changed {
        ReplaceKeeps(blocks, sets, vIn, n, newIn);
        vIn := vIn[n := newIn];
      }
    }

    /** Phase I: local sets of every block, and live-in sets started from the gen sets. */
    method LocalPhase()
      requires ValidGraph(one, blocks)
      modifies this
      ensures Fits(blocks, sets) && Exact(one, blocks, sets)
      ensures vIn == sets.g
    {
      sets, vIn := LocalSets([], []), [];
      for n := 0 to |blocks|
        invariant |sets.g| == |sets.k| == n && vIn == sets.g
        invariant forall m :: 0 <= m < n ==> LocalAt(one, blocks[m], sets.g[m], sets.k[m])
      {
        assert blocks[n] in blocks;
        var g, k := BuildGkUp(one, |blocks|, blocks[n]);
        sets := LocalSets(sets.g + [g], sets.k + [k]);
        vIn := vIn + [g];
      }
      forall n, a | 0 <= n < |blocks| && a in blocks[n].exits
        ensures a.succ < |blocks|
      {
        assert blocks[n] in blocks;
      }
      forall n | 0 <= n < |blocks|
        ensures |sets.k[n]| == |blocks[n].exits|
      {
        assert LocalAt(one, blocks[n], sets.g[n], sets.k[n]);
      }
      assert Fits(blocks, sets);
      forall n | 0 <= n < |blocks|
        ensures ExactAt(one, blocks, sets, n)
      {
        assert LocalAt(one, blocks[n], sets.g[n], sets.k[n]);
      }
    }

    /** One round over all blocks, last to first. */
    method Round() returns (change: bool)
      requires Fits(blocks, sets) && Justified(blocks, sets, vIn)
      modifies this`vIn
      ensures Justified(blocks, sets, vIn)
      ensures change ==> Missing(Universe(sets), vIn) < Missing(Universe(sets), old(vIn))
      ensures !change ==> vIn == old(vIn) && forall n :: 0 <= n < |blocks| ==> ClosedAt(blocks, sets, vIn, n)
    {
      hide ClosedAt, Missing, Universe, LivePath, Incoming;
      change := false;
      for n := |blocks| downto 0
        invariant |vIn| == |blocks| && Justified(blocks, sets, vIn)
        invariant change ==> Missing(Universe(sets), vIn) < Missing(Universe(sets), old(vIn))
        invariant !change ==> vIn == old(vIn) && forall m :: n <= m < |blocks| ==> ClosedAt(blocks, sets, vIn, m)
      {
        var c := PropUp(n);
        change := change || c;
      }
    }

    /** Phase II: rounds until one changes nothing. */
    method Propagate()
      requires Fits(blocks, sets) && vIn == sets.g
      modifies this`vIn
      ensures |vIn| == |blocks|
      ensures forall n, r :: 0 <= n < |blocks| ==> (r in vIn[n] <==> OnLivePath(blocks, sets, n, r))
    {
      GenSetsJustified(blocks, sets);
      var change := true;
      while change
        invariant Justified(blocks, sets, vIn)
        invariant !change ==> forall n :: 0 <= n < |blocks| ==> ClosedAt(blocks, sets, vIn, n)
        decreases Missing(Universe(sets), vIn), change
      {
        change := Round();
      }
      ClosedIsExact(blocks, sets, vIn);
    }

    /** Live variables of the whole graph. */
    method Run()
      requires ValidGraph(one, blocks)
      modifies this
      ensures |vIn| == |blocks|
      ensures forall n, r :: 0 <= n < |blocks| ==> (r in vIn[n] <==> LiveAt(one, blocks, n, r))
    {
      LocalPhase();
      Propagate();
      forall n, r | 0 <= n < |blocks|
        ensures r in vIn[n] <==> LiveAt(one, blocks, n, r)
      {
        LiveIffWalk(one, blocks, sets, n, r);
      }
    }
  }

  ghost predicate LocalAt(one: Func, b: Block, g: set<int>, k: seq<set<int>>) {
    && InOpOrder(b.ops, b.exits)
    && |k| == |b.exits|
    && IsGenSet(one, b, g)
    && forall j :: 0 <= j < |b.exits| ==> IsKillSet(b, b.exits[j], k[j])
  }

  lemma GenSetsJustified(blocks: seq<Block>, s: LocalSets)
    requires Fits(blocks, s)
    ensures Justified(blocks, s, s.g)
  {
    forall n, r | 0 <= n < |blocks| && r in s.g[n]
      ensures OnLivePath(blocks, s, n, r)
    {
      assert LivePath(blocks, s, n, r, []);
    }
    forall n | 0 <= n < |blocks|
      ensures s.g[n] <= Universe(s)
    {
      if !(s.g[n] <= Universe(s)) {
        var r := Outside(s.g[n], Universe(s));
      }
    }
  }

  // ----- what the result means -----

  /** One step of a walk: the exit taken, and the valuation under which it is taken. `None`
      stands for an exit whose function is false, which no execution takes. */
  datatype Step = Step(exit: nat, under: Option<Valuation>)

  /** r survives block b when it is left as the step says: either the exit is taken under a
      valuation that executes no write of r up to it, or the exit function is false and no
      operation up to it writes r at all. */
  ghost predicate Survives(b: Block, st: Step, r: int)
    requires InOpOrder(b.ops, b.exits) && st.exit < |b.exits|
  {
    var a := b.exits[st.exit];
    match st.under
    case Some(v) => v in a.pfunc && !WritesBefore(b.ops, v, r, Executed(b.ops, a))
    case None => a.pfunc == {} && !DestBefore(b.ops, r, Executed(b.ops, a))
  }

  /** Some operation of the block reads r, under some valuation, with no write of r before it. */
  ghost predicate ReadsIn(one: Func, b: Block, r: int) {
    exists v, i :: v in one && ReadAt(b.ops, v, r, i)
  }

  lemma GensIsReadsIn(one: Func, b: Block, r: int)
    ensures Gens(one, b, r) <==> ReadsIn(one, b, r)
  {
    hide FirstAccess, ReadAt, WrittenAt, TouchedAt;
    forall v
      ensures FirstAccess(b.ops, v, r) == Use <==> exists i :: ReadAt(b.ops, v, r, i)
    {
      FirstAccessIs(b.ops, v, r);
    }
  }

  lemma SurvivesIs(b: Block, st: Step, r: int)
    requires InOpOrder(b.ops, b.exits) && st.exit < |b.exits|
    ensures var a := b.exits[st.exit];
      Survives(b, st, r) <==>
      match st.under
      case Some(v) => v in a.pfunc && !Defines(UpTo(b, a), v, r)
      case None => a.pfunc == {} && !IsDest(UpTo(b, a), r)
  {
    hide Defines, IsDest, WritesBefore, DestBefore;
    var a := b.exits[st.exit];
    assert b.ops[..|b.ops|] == b.ops;
    DestBeforeIs(b.ops, r, Executed(b.ops, a));
    if st.under.Some? {
      WritesBeforeIs(b.ops, st.under.value, r, Executed(b.ops, a));
    }
  }

  /** A walk from block n on which r survives every block left, into a block whose first access
      to r, under some valuation, is a read. */
  ghost predicate LiveWalk(one: Func, blocks: seq<Block>, n: nat, r: int, walk: seq<Step>)
    requires ValidGraph(one, blocks) && n < |blocks|
    decreases |walk|
  {
    assert blocks[n] in blocks;
    if walk == [] then ReadsIn(one, blocks[n], r)
    else
      && walk[0].exit < |blocks[n].exits|
      && Survives(blocks[n], walk[0], r)
      && (assert blocks[n].exits[walk[0].exit] in blocks[n].exits;
          LiveWalk(one, blocks, blocks[n].exits[walk[0].exit].succ, r, walk[1..]))
  }

  ghost predicate LiveAt(one: Func, blocks: seq<Block>, n: nat, r: int)
    requires ValidGraph(one, blocks) && n < |blocks|
  {
    exists walk :: LiveWalk(one, blocks, n, r, walk)
  }

  lemma LiveIffWalk(one: Func, blocks: seq<Block>, s: LocalSets, n: nat, r: int)
    requires ValidGraph(one, blocks) && Fits(blocks, s) && Exact(one, blocks, s) && n < |blocks|
    ensures OnLivePath(blocks, s, n, r) <==> LiveAt(one, blocks, n, r)
  {
    if path :| LivePath(blocks, s, n, r, path) {
      var walk := WalkOfPath(one, blocks, s, n, r, path);
    }
    if walk :| LiveWalk(one, blocks, n, r, walk) {
      var path := PathOfWalk(one, blocks, s, n, r, walk);
    }
  }

  /** Soundness: a walk that keeps r alive crosses no exit that kills r. */
  lemma {:induction false} PathOfWalk(one: Func, blocks: seq<Block>, s: LocalSets, n: nat, r: int, walk: seq<Step>)
    returns (path: seq<nat>)
    requires ValidGraph(one, blocks) && Fits(blocks, s) && Exact(one, blocks, s) && n < |blocks|
    requires LiveWalk(one, blocks, n, r, walk)
    ensures LivePath(blocks, s, n, r, path)
    decreases |walk|
  {
    hide Survives, ReadsIn;
    assert ExactAt(one, blocks, s, n);
    if walk == [] {
      GensIsReadsIn(one, blocks[n], r);
      path := [];
    } else {
      var b, j := blocks[n], walk[0].exit;
      assert b in blocks;
      var a := b.exits[j];
      SurvivesIs(b, walk[0], r);
      if walk[0].under.Some? {
        UntouchedDefinesNothing(UpTo(b, a), walk[0].under.value, r);
      }
      assert !Kills(b, a, r);
      var rest := PathOfWalk(one, blocks, s, Succ(blocks, s, n, j), r, walk[1..]);
      path := [j] + rest;
      assert path[1..] == rest;
    }
  }

  /** Completeness: an exit that does not kill r either lets r through under some valuation, or
      follows a read of r, where the walk can stop. */
  lemma {:induction false} WalkOfPath(one: Func, blocks: seq<Block>, s: LocalSets, n: nat, r: int, path: seq<nat>)
    returns (walk: seq<Step>)
    requires ValidGraph(one, blocks) && Fits(blocks, s) && Exact(one, blocks, s) && n < |blocks|
    requires LivePath(blocks, s, n, r, path)
    ensures LiveWalk(one, blocks, n, r, walk)
    decreases |path|
  {
    hide Survives, ReadsIn;
    assert ExactAt(one, blocks, s, n);
    var b := blocks[n];
    assert b in blocks;
    GensIsReadsIn(one, b, r);
    if path == [] {
      return [];
    }
    assert b.exits[path[0]] in b.exits;
    var crossed, st := CrossExit(one, |blocks|, b, path[0], r);
    if !crossed {
      return [];
    }
    var rest := WalkOfPath(one, blocks, s, Succ(blocks, s, n, path[0]), r, path[1..]);
    walk := [st] + rest;
    assert walk[1..] == rest;
  }

  lemma CrossExit(one: Func, nodes: nat, b: Block, j: nat, r: int) returns (crossed: bool, st: Step)
    requires ValidBlock(one, nodes, b) && j < |b.exits| && !Kills(b, b.exits[j], r)
    ensures st.exit == j
    ensures if crossed then Survives(b, st, r) else Gens(one, b, r)
  {
    hide Survives;
    var a := b.exits[j];
    assert a in b.exits;
    var ops := UpTo(b, a);
    crossed, st := true, Step(j, None);
    if IsDest(ops, r) {
      var v :| v in a.pfunc && FirstAccess(ops, v, r) != Def;
      UntouchedDefinesNothing(ops, v, r);
      if FirstAccess(ops, v, r) == Use {
        crossed := false;
        assert b.ops[..|b.ops|] == b.ops;
        FirstAccessOfPrefix(b.ops, |ops|, v, r);
      } else {
        st := Step(j, Some(v));
      }
    } else if a.pfunc != {} {
      var v := Member(a.pfunc);
      NoDestNoDef(ops, v, r);
      st := Step(j, Some(v));
    }
    SurvivesIs(b, st, r);
  }

  lemma NoDestNoDef(ops: seq<Oper>, v: Valuation, r: int)
    requires !IsDest(ops, r)
    ensures !Defines(ops, v, r)
  {
    assert forall o :: o in ops && Touches(o.dest, o.pfunc, v, r) ==> r in Regs(o.dest);
  }

  /** Blocks whose arcs come from the graph builder meet the precondition of the analysis. */
  lemma BuiltBlockIsValid(one: Func, ops: seq<Oper>, flows: seq<nat>, stop: nat, nodes: nat)
    requires stop < nodes
    requires forall o :: o in ops ==> o.pfunc <= one
    requires forall f :: f in flows ==> f < nodes
    ensures ValidBlock(one, nodes, Block(ops, BlockArcs(one, ops, flows, stop)))
  {
    ArcsInOpOrder(one, ops, flows, stop);
    ArcTargets(one, ops, flows, stop, |ops|);
  }

  lemma {:induction false} ArcTargets(one: Func, ops: seq<Oper>, flows: seq<nat>, stop: nat, i: nat)
    requires i <= |ops|
    ensures forall a :: a in ArcsUpTo(one, ops, flows, stop, i) ==> a.succ == stop || a.succ in flows
  {
    hide OpArcs;
    if i > 0 {
      ArcTargets(one, ops, flows, stop, i - 1);
      OpArcTargets(one, ops, flows, stop, i - 1);
    }
  }

  lemma OpArcTargets(one: Func, ops: seq<Oper>, flows: seq<nat>, stop: nat, i: nat)
    requires i < |ops|
    ensures forall a :: a in OpArcs(one, ops, flows, stop, i) ==> a.succ == stop || a.succ in flows
  {
    hide ExitSet, FlowPos;
  }

  lemma ReplaceKeeps(blocks: seq<Block>, s: LocalSets, vIn: seq<set<int>>, n: nat, newIn: set<int>)
    requires Fits(blocks, s) && Justified(blocks, s, vIn) && n < |blocks|
    requires forall r :: r in newIn <==> Incoming(blocks, s, vIn, n, r)
    requires !(newIn <= vIn[n])
    ensures Justified(blocks, s, vIn[n := newIn])
    ensures Missing(Universe(s), vIn[n := newIn]) < Missing(Universe(s), vIn)
  {
    hide LivePath, Missing, Universe;
    var after := vIn[n := newIn];
    if !(vIn[n] <= newIn) {
      var r := Outside(vIn[n], newIn);
    }
    var u := Universe(s);
    forall r | r in newIn
      ensures OnLivePath(blocks, s, n, r) && r in u
    {
      IncomingIsLive(blocks, s, vIn, n, r);
    }
    if !(newIn <= u) {
      var r := Outside(newIn, u);
      IncomingIsLive(blocks, s, vIn, n, r);
    }
    forall m, r | 0 <= m < |blocks| && r in after[m]
      ensures Incoming(blocks, s, after, m, r)
    {
      IncomingGrows(blocks, s, vIn, after, m, r);
    }
    MissingDrops(Universe(s), vIn, n, newIn);
  }

  lemma IncomingGrows(blocks: seq<Block>, s: LocalSets, vIn: seq<set<int>>, after: seq<set<int>>, m: nat, r: int)
    requires Fits(blocks, s) && |vIn| == |after| == |blocks| && m < |blocks|
    requires forall i :: 0 <= i < |vIn| ==> vIn[i] <= after[i]
    requires Incoming(blocks, s, vIn, m, r)
    ensures Incoming(blocks, s, after, m, r)
  {
    if r !in s.g[m] {
      var j :| 0 <= j < |blocks[m].exits| && ThroughExit(blocks, s, vIn, m, j, r);
      assert vIn[Succ(blocks, s, m, j)] <= after[Succ(blocks, s, m, j)];
      assert ThroughExit(blocks, s, after, m, j, r);
    }
  }
}
