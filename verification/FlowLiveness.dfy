/** Live variables from operations and flow arcs: the exits are built, the analysis runs, and its
    result covers every execution of the operations. */
module FlowLiveness {
  import opened Collections
  import opened BoolFunc
  import opened BdfGraph
  import opened BdfLiveness
  import opened LiveVariables

  /** A block before its exit arcs are built: its operations and the blocks its flow arcs reach. */
  datatype FlowBlock = FlowBlock(ops: seq<Oper>, flows: seq<nat>)

  /** Predicates are bounded and flow arcs stay in the function. */
  ghost predicate ValidFlowGraph(one: Func, cbs: seq<FlowBlock>) {
    forall i :: 0 <= i < |cbs| ==>
      && (forall o :: o in cbs[i].ops ==> o.pfunc <= one)
      && (forall f :: f in cbs[i].flows ==> f < |cbs|)
  }

  /** The blocks with their exits, and behind them the stop node, which returns reach. */
  ghost function GraphOf(one: Func, cbs: seq<FlowBlock>): (blocks: seq<Block>)
    ensures |blocks| == |cbs| + 1
  {
    seq(|cbs|, i requires 0 <= i < |cbs| => Block(cbs[i].ops, BlockArcs(one, cbs[i].ops, cbs[i].flows, |cbs|)))
    + [Block([], [])]
  }

  lemma GraphIsValid(one: Func, cbs: seq<FlowBlock>)
    requires ValidFlowGraph(one, cbs)
    ensures ValidGraph(one, GraphOf(one, cbs))
  {
    hide BlockArcs;
    var blocks := GraphOf(one, cbs);
    forall i | 0 <= i < |blocks|
      ensures ValidBlock(one, |blocks|, blocks[i])
    {
      if i < |cbs| {
        BuiltBlockIsValid(one, cbs[i].ops, cbs[i].flows, |cbs|, |blocks|);
      }
    }
  }

  // ----- executions, without arcs -----

  /** Control leaves a block: the valuation of its predicates, the operation that branches (the
      number of operations when control falls through), and the flow it takes. */
  datatype Leave = Leave(under: Valuation, at: nat, flow: nat)

  /** Control gets to operation i. */
  ghost predicate Gets(ops: seq<Oper>, v: Valuation, i: nat)
    requires i <= |ops|
  {
    forall j :: 0 <= j < i ==> !Fires(ops[j], v)
  }

  /** Jumps and conditional branches own one flow each, the first register branch all that remain,
      and a block without one falls through to the next. */
  ghost predicate Owns(ops: seq<Oper>, at: nat, flow: nat)
    requires at <= |ops|
  {
    && !RegisterBranchBefore(ops, at)
    && (if at == |ops| then flow == Jumps(ops, at)
        else if ops[at].branch.RegisterBranch? then flow >= Jumps(ops, at)
        else IsJump(ops[at]) && flow == Jumps(ops, at))
  }

  ghost predicate Leaves(one: Func, b: FlowBlock, st: Leave) {
    && st.under in one && st.at <= |b.ops| && st.flow < |b.flows|
    && Gets(b.ops, st.under, st.at) && (st.at < |b.ops| ==> Fires(b.ops[st.at], st.under))
    && Owns(b.ops, st.at, st.flow)
  }

  /** Operation i of the block reads r under v, and control gets there without a write of r. */
  ghost predicate ReadsHere(one: Func, b: FlowBlock, v: Valuation, r: int, i: nat) {
    && v in one && i < |b.ops| && Gets(b.ops, v, i) && !WritesBefore(b.ops, v, r, i)
    && Touches(b.ops[i].src, b.ops[i].pfunc, v, r)
  }

  /** An execution from block n: it leaves blocks as `run` says and then reads r at operation i, with
      no write of r on the way. */
  ghost predicate ReadsFirst(one: Func, cbs: seq<FlowBlock>, n: nat, r: int, run: seq<Leave>, v: Valuation, i: nat)
    decreases |run|
  {
    && n < |cbs|
    && if run == [] then ReadsHere(one, cbs[n], v, r, i)
       else
         && Leaves(one, cbs[n], run[0])
         && !WritesBefore(cbs[n].ops, run[0].under, r, AtMost(run[0].at + 1, |cbs[n].ops|))
         && ReadsFirst(one, cbs, cbs[n].flows[run[0].flow], r, run[1..], v, i)
  }

  function AtMost(i: nat, n: nat): nat {
    if i < n then i else n
  }

  lemma {:induction false} OpArcsStay(one: Func, ops: seq<Oper>, flows: seq<nat>, stop: nat, i: nat, n: nat)
    requires i < n <= |ops|
    ensures forall a :: a in OpArcs(one, ops, flows, stop, i) ==> a in ArcsUpTo(one, ops, flows, stop, n)
  {
    hide OpArcs;
    if i < n - 1 {
      OpArcsStay(one, ops, flows, stop, i, n - 1);
    }
  }

  /** The flow an operation owns is reached by an arc of its own. */
  lemma OwnedArc(one: Func, ops: seq<Oper>, flows: seq<nat>, stop: nat, at: nat, flow: nat) returns (a: Arc)
    requires !Stuck(ops, |flows|, |ops|) && at <= |ops| && flow < |flows| && Owns(ops, at, flow)
    ensures a in BlockArcs(one, ops, flows, stop) && a.succ == flows[flow]
    ensures a.op == if at < |ops| then Some(at) else None
  {
    hide ExitSet, Residual, FlowPos, ArcsUpTo, Stuck, RegisterBranchBefore, Jumps;
    FlowPosIs(ops, |flows|, at);
    var pos := FlowPos(ops, |flows|, at);
    if at == |ops| {
      var arcs := BlockArcs(one, ops, flows, stop);
      a := arcs[|arcs| - 1];
    } else {
      OpArcsStay(one, ops, flows, stop, at, |ops|);
      a := OpArcs(one, ops, flows, stop, at)[flow - pos];
    }
  }

  /** Control that leaves takes an exit under a valuation of its function. */
  lemma ExitTaken(one: Func, b: FlowBlock, stop: nat, st: Leave) returns (a: Arc)
    requires !Stuck(b.ops, |b.flows|, |b.ops|) && Leaves(one, b, st)
    ensures st.at <= |b.ops| && st.flow < |b.flows|
    ensures a in BlockArcs(one, b.ops, b.flows, stop) && a.succ == b.flows[st.flow] && st.under in a.pfunc
    ensures a.op == if st.at < |b.ops| then Some(st.at) else None
  {
    hide BlockArcs, Stuck, Owns, Fires;
    a := OwnedArc(one, b.ops, b.flows, stop, st.at, st.flow);
    ExitFunctions(one, b.ops, b.flows, stop, a, st.under);
  }

  lemma ReadIsFirst(one: Func, b: FlowBlock, exits: seq<Arc>, v: Valuation, r: int, i: nat)
    requires ReadsHere(one, b, v, r, i)
    ensures ReadsIn(one, Block(b.ops, exits), r)
  {
    hide Touches;
    assert ReadAt(b.ops, v, r, i);
  }

  /** A register that some execution reads before it writes it is live, whatever the branches. */
  lemma {:induction false} ExecutedReadIsLive(one: Func, cbs: seq<FlowBlock>, n: nat, r: int, run: seq<Leave>,
                                             v: Valuation, i: nat) returns (walk: seq<Step>)
    requires ValidFlowGraph(one, cbs) && ValidGraph(one, GraphOf(one, cbs))
    requires forall m :: 0 <= m < |cbs| ==> !Stuck(cbs[m].ops, |cbs[m].flows|, |cbs[m].ops|)
    requires ReadsFirst(one, cbs, n, r, run, v, i)
    ensures LiveWalk(one, GraphOf(one, cbs), n, r, walk)
    decreases |run|
  {
    hide BlockArcs, Stuck, Leaves, ReadsHere, ReadsIn, WritesBefore;
    var blocks := GraphOf(one, cbs);
    var b := cbs[n];
    assert blocks[n] == Block(b.ops, BlockArcs(one, b.ops, b.flows, |cbs|));
    assert blocks[n] in blocks;
    if run == [] {
      ReadIsFirst(one, b, blocks[n].exits, v, r, i);
      walk := [];
    } else {
      var a := ExitTaken(one, b, |cbs|, run[0]);
      var j :| 0 <= j < |blocks[n].exits| && blocks[n].exits[j] == a;
      var rest := ExecutedReadIsLive(one, cbs, b.flows[run[0].flow], r, run[1..], v, i);
      LeftAlive(one, cbs, n, r, run[0], j);
      walk := [Step(j, Some(run[0].under))] + rest;
      assert walk[1..] == rest;
    }
  }

  lemma ReadIsLive(one: Func, cbs: seq<FlowBlock>, n: nat, r: int, run: seq<Leave>, v: Valuation, i: nat)
    requires ValidFlowGraph(one, cbs) && ValidGraph(one, GraphOf(one, cbs))
    requires forall m :: 0 <= m < |cbs| ==> !Stuck(cbs[m].ops, |cbs[m].flows|, |cbs[m].ops|)
    requires ReadsFirst(one, cbs, n, r, run, v, i)
    ensures n < |cbs| && LiveAt(one, GraphOf(one, cbs), n, r)
  {
    hide BlockArcs, Stuck, LiveWalk;
    var walk := ExecutedReadIsLive(one, cbs, n, r, run, v, i);
  }

  lemma LeftAlive(one: Func, cbs: seq<FlowBlock>, n: nat, r: int, st: Leave, j: nat)
    requires n < |cbs| && ValidGraph(one, GraphOf(one, cbs)) && st.at <= |cbs[n].ops|
    requires !WritesBefore(cbs[n].ops, st.under, r, AtMost(st.at + 1, |cbs[n].ops|))
    requires var exits := GraphOf(one, cbs)[n].exits;
      && j < |exits| && st.under in exits[j].pfunc
      && exits[j].op == if st.at < |cbs[n].ops| then Some(st.at) else None
    ensures GraphOf(one, cbs)[n] in GraphOf(one, cbs)
    ensures Survives(GraphOf(one, cbs)[n], Step(j, Some(st.under)), r)
  {
    hide BlockArcs, WritesBefore;
    var b := GraphOf(one, cbs)[n];
    assert b in GraphOf(one, cbs);
  }

  /** Builds the exits of every block and runs the analysis.  It fails exactly when the exit scan of
      some block does; otherwise a register is live into a block exactly when a walk shows it, and no
      execution reads a register first that is not live. */
  method LiveVariablesOf(one: Func, cbs: seq<FlowBlock>) returns (ok: bool, vIn: seq<set<int>>)
    requires ValidFlowGraph(one, cbs)
    ensures ok <==> forall i :: 0 <= i < |cbs| ==> !Stuck(cbs[i].ops, |cbs[i].flows|, |cbs[i].ops|)
    ensures ok ==> |vIn| == |cbs| + 1
    ensures ok ==> ValidGraph(one, GraphOf(one, cbs))
    ensures ok ==> forall n, r :: 0 <= n <= |cbs| ==> (r in vIn[n] <==> LiveAt(one, GraphOf(one, cbs), n, r))
    ensures ok ==> forall n: nat, r, run, v, i: nat ::
              ReadsFirst(one, cbs, n, r, run, v, i) ==> n < |cbs| && r in vIn[n]
  {
    hide BlockArcs, Stuck, ValidBlock, LiveAt, ReadsFirst, TargetsInOrder, OwnArcs, LeftOver;
    var blocks: seq<Block> := [];
    vIn := [];
    for i := 0 to |cbs|
      invariant |blocks| == i
      invariant forall j :: 0 <= j < i ==>
                  blocks[j] == Block(cbs[j].ops, BlockArcs(one, cbs[j].ops, cbs[j].flows, |cbs|))
      invariant forall j :: 0 <= j < i ==> !Stuck(cbs[j].ops, |cbs[j].flows|, |cbs[j].ops|)
    {
      var arcs;
      ok, arcs := BuildExits(one, cbs[i].ops, cbs[i].flows, |cbs|);
      if !ok {
        return;
      }
      blocks := blocks + [Block(cbs[i].ops, arcs)];
    }
    blocks := blocks + [Block([], [])];
    assert blocks == GraphOf(one, cbs);
    GraphIsValid(one, cbs);
    var flow := new LiveFlow(one, blocks);
    flow.Run();
    ok, vIn := true, flow.vIn;
    forall n: nat, r, run, v, i: nat | ReadsFirst(one, cbs, n, r, run, v, i)
      ensures n < |cbs| && r in vIn[n]
    {
      ReadIsLive(one, cbs, n, r, run, v, i);
    }
  }
}
