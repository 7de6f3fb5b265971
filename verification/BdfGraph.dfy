/** Exit functions and arcs of one block of the Boolean dataflow graph. */
module BdfGraph {
  import opened Collections
  import opened BoolFunc

  /** A register reference; `uncond` references happen whatever the operation's predicate. */
  datatype Operand = Operand(reg: int, uncond: bool)

  /** How an operation can leave its block.  A conditional branch carries the function of
      its condition destination, or None when that destination is missing. */
  datatype Branch =
    | NoBranch
    | Return
    | Jump
    | CondBranch(cond: Option<Func>)
    | RegisterBranch

  datatype Oper = Oper(pfunc: Func, src: seq<Operand>, dest: seq<Operand>, branch: Branch)

  /** An exit arc: the operation that takes it (None for the fall-through), the block it
      reaches and the valuations under which it is taken. */
  datatype Arc = Arc(op: Option<nat>, succ: nat, pfunc: Func)

  // ----- what an exit means, without the scan -----

  /** The operation leaves the block under valuation v, if it is reached. */
  predicate Fires(op: Oper, v: Valuation) {
    match op.branch
    case NoBranch => false
    case CondBranch(c) => v in op.pfunc && c.Some? && v in c.value
    case _ => v in op.pfunc
  }

  /** Some operation before position i has left the block.  Register branches do not count:
      the scan does not subtract them from the execution function. */
  ghost predicate LeftBefore(ops: seq<Oper>, i: nat, v: Valuation)
    requires i <= |ops|
  {
    exists j :: 0 <= j < i && !ops[j].branch.RegisterBranch? && Fires(ops[j], v)
  }

  ghost function ExitSet(one: Func, ops: seq<Oper>, i: nat): Func
    requires i < |ops|
  {
    set v | v in one && !LeftBefore(ops, i, v) && Fires(ops[i], v)
  }

  ghost function Residual(one: Func, ops: seq<Oper>, i: nat): Func
    requires i <= |ops|
  {
    set v | v in one && !LeftBefore(ops, i, v)
  }

  /** Number of flow arcs consumed by the operations before position i. */
  ghost function FlowPos(ops: seq<Oper>, flows: nat, i: nat): (n: nat)
    requires i <= |ops|
  {
    if i == 0 then 0
    else
      var n := FlowPos(ops, flows, i - 1);
      match ops[i - 1].branch
      case Jump => n + 1
      case CondBranch(_) => n + 1
      case RegisterBranch => if n < flows then flows else n
      case _ => n
  }

  ghost function FlowArcs(op: Option<nat>, flows: seq<nat>, f: Func): (a: seq<Arc>)
    ensures |a| == |flows|
    ensures forall k :: 0 <= k < |a| ==> a[k] == Arc(op, flows[k], f)
  {
    seq(|flows|, k requires 0 <= k < |flows| => Arc(op, flows[k], f))
  }

  /** The arcs of the operation at position i. */
  ghost function OpArcs(one: Func, ops: seq<Oper>, flows: seq<nat>, stop: nat, i: nat): seq<Arc>
    requires i < |ops|
  {
    var pos := FlowPos(ops, |flows|, i);
    match ops[i].branch
    case NoBranch => []
    case Return => [Arc(Some(i), stop, ExitSet(one, ops, i))]
    case RegisterBranch => if pos <= |flows| then FlowArcs(Some(i), flows[pos..], ExitSet(one, ops, i)) else []
    case _ => if pos < |flows| then [Arc(Some(i), flows[pos], ExitSet(one, ops, i))] else []
  }

  ghost function ArcsUpTo(one: Func, ops: seq<Oper>, flows: seq<nat>, stop: nat, i: nat): seq<Arc>
    requires i <= |ops|
  {
    if i == 0 then [] else ArcsUpTo(one, ops, flows, stop, i - 1) + OpArcs(one, ops, flows, stop, i - 1)
  }

  ghost function BlockArcs(one: Func, ops: seq<Oper>, flows: seq<nat>, stop: nat): seq<Arc> {
    var pos := FlowPos(ops, |flows|, |ops|);
    ArcsUpTo(one, ops, flows, stop, |ops|)
    + (if pos < |flows| then [Arc(None, flows[pos], Residual(one, ops, |ops|))] else [])
  }

  /** The scan runs off the flow list, or meets a conditional branch without a condition. */
  ghost predicate Stuck(ops: seq<Oper>, flows: nat, i: nat)
    requires i <= |ops|
  {
    exists j :: 0 <= j < i && StuckAt(ops, flows, j)
  }

  ghost predicate StuckAt(ops: seq<Oper>, flows: nat, j: nat)
    requires j < |ops|
  {
    (ops[j].branch.Jump? || ops[j].branch.CondBranch?) &&
    (FlowPos(ops, flows, j) >= flows || ops[j].branch == CondBranch(None))
  }

  // ----- the scan -----

  /** The exit function of a branch reached under fe: each kind of branch composes its
      if-then-else differently. */
  method ExitFunction(o: Oper, fe: Func) returns (fx: Func)
    requires !o.branch.NoBranch? && o.branch != CondBranch(None)
    ensures forall v :: v in fx <==> v in fe && Fires(o, v)
    ensures forall v :: v in fx <==> v in fe && v in o.pfunc && (o.branch.CondBranch? ==> v in o.branch.cond.value)
  {
    if o.branch.Return? {
      fx := Ite(o.pfunc, fe, {});
    } else {
      fx := Ite(fe, o.pfunc, {});
      if o.branch.CondBranch? {
        fx := Ite(o.branch.cond.value, fx, {});
      }
    }
  }

  /** All remaining flow arcs of a register branch. */
  method RegisterArcs(op: nat, flows: seq<nat>, start: nat, fx: Func) returns (arcs: seq<Arc>)
    requires start <= |flows|
    ensures arcs == FlowArcs(Some(op), flows[start..], fx)
  {
    arcs := [];
    for fl := start to |flows|
      invariant arcs == FlowArcs(Some(op), flows[start..fl], fx)
    {
      assert flows[start..fl + 1] == flows[start..fl] + [flows[fl]];
      arcs := arcs + [Arc(Some(op), flows[fl], fx)];
    }
    assert flows[start..|flows|] == flows[start..];
  }

  /** The per-block loop of the graph builder.  `arcs` is meaningful only when `ok`. */
  method BuildExits(one: Func, ops: seq<Oper>, flows: seq<nat>, stop: nat)
    returns (ok: bool, arcs: seq<Arc>)
    ensures ok <==> !Stuck(ops, |flows|, |ops|)
    ensures ok ==> arcs == BlockArcs(one, ops, flows, stop)
    ensures ok ==> TargetsInOrder(ops, flows, stop, arcs) && OwnArcs(ops, arcs) && LeftOver(ops, flows, arcs)
  {
    hide TargetsInOrder, OwnArcs, LeftOver;
    ok, arcs := true, [];
    var fe := one;          // valuations under which control has not left yet
    var fl := 0;            // next unused flow arc
    for i := 0 to |ops|
      invariant ok && !Stuck(ops, |flows|, i)
      invariant fe == Residual(one, ops, i)
      invariant fl == FlowPos(ops, |flows|, i) <= |flows|
      invariant arcs == ArcsUpTo(one, ops, flows, stop, i)
    {
      var o := ops[i];
      if (o.branch.Jump? || o.branch.CondBranch?) && (fl >= |flows| || o.branch == CondBranch(None)) {
        assert StuckAt(ops, |flows|, i);
        return false, [];
      }
      ResidualStep(one, ops, i);
      if !o.branch.NoBranch? {
        var fx := ExitFunction(o, fe);
        assert fx == ExitSet(one, ops, i);
        if o.branch.RegisterBranch? {
          var more := RegisterArcs(i, flows, fl, fx);
          arcs := arcs + more;
          fl := |flows|;
        } else {
          if o.branch.Return? {
            arcs := arcs + [Arc(Some(i), stop, fx)];
          } else {
            arcs := arcs + [Arc(Some(i), flows[fl], fx)];
            fl := fl + 1;
          }
          fe := Ite(fx, {}, fe);
        }
      }
    }
    if fl < |flows| {
      arcs := arcs + [Arc(None, flows[fl], fe)];
    }
    ExitTargets(one, ops, flows, stop);
  }

  lemma ResidualStep(one: Func, ops: seq<Oper>, i: nat)
    requires i < |ops|
    ensures Residual(one, ops, i + 1) ==
            if ops[i].branch.RegisterBranch? then Residual(one, ops, i)
            else Residual(one, ops, i) - ExitSet(one, ops, i)
  {
  }

  // ----- properties of the arcs -----

  /** The order the gen/kill scan relies on: arcs follow the operations, and only the last
      one may be the fall-through. */
  ghost predicate InOpOrder(ops: seq<Oper>, arcs: seq<Arc>) {
    && (forall j :: 0 <= j < |arcs| && arcs[j].op.Some? ==> arcs[j].op.value < |ops|)
    && (forall j :: 0 <= j < |arcs| - 1 ==> arcs[j].op.Some?)
    && (forall i, j :: 0 <= i < j < |arcs| && arcs[j].op.Some? ==>
          arcs[i].op.Some? && arcs[i].op.value <= arcs[j].op.value)
  }

  /** Arc a may precede arc b: it belongs to an earlier operation, or to the same register branch. */
  ghost predicate Precedes(ops: seq<Oper>, a: Arc, b: Arc) {
    && a.op.Some? && b.op.Some? && b.op.value < |ops|
    && (a.op.value < b.op.value || (a.op == b.op && ops[b.op.value].branch.RegisterBranch?))
  }

  lemma OpArcsShape(one: Func, ops: seq<Oper>, flows: seq<nat>, stop: nat, i: nat)
    requires i < |ops|
    ensures var b := OpArcs(one, ops, flows, stop, i);
      && (forall a :: a in b ==> a.op == Some(i) && !ops[i].branch.NoBranch? && a.pfunc == ExitSet(one, ops, i))
      && (|b| > 1 ==> ops[i].branch.RegisterBranch?)
  {
    hide ExitSet, FlowPos;
  }

  lemma {:induction false} ArcsUpToShape(one: Func, ops: seq<Oper>, flows: seq<nat>, stop: nat, i: nat)
    requires i <= |ops|
    ensures var arcs := ArcsUpTo(one, ops, flows, stop, i);
      && (forall a :: a in arcs ==>
            && a.op.Some? && a.op.value < i && !ops[a.op.value].branch.NoBranch?
            && a.pfunc == ExitSet(one, ops, a.op.value))
      && (forall p, q :: 0 <= p < q < |arcs| ==> Precedes(ops, arcs[p], arcs[q]))
  {
    hide ExitSet, FlowPos, OpArcs;
    if i > 0 {
      ArcsUpToShape(one, ops, flows, stop, i - 1);
      OpArcsShape(one, ops, flows, stop, i - 1);
      var a, b := ArcsUpTo(one, ops, flows, stop, i - 1), OpArcs(one, ops, flows, stop, i - 1);
      forall p, q | 0 <= p < q < |a| + |b|
        ensures Precedes(ops, (a + b)[p], (a + b)[q])
      {
        assert p < |a| ==> (a + b)[p] == a[p] && a[p] in a;
        assert q < |a| ==> (a + b)[q] == a[q];
        assert p >= |a| ==> (a + b)[p] == b[p - |a|];
        assert q >= |a| ==> (a + b)[q] == b[q - |a|];
      }
    }
  }

  /** Every block the builder accepts has its arcs in operation order, fall-through last,
      and every arc of an operation is taken only when the operation's predicate holds. */
  lemma ArcsInOpOrder(one: Func, ops: seq<Oper>, flows: seq<nat>, stop: nat)
    ensures var arcs := BlockArcs(one, ops, flows, stop);
      && InOpOrder(ops, arcs)
      && (forall a :: a in arcs ==> a.pfunc <= one)
      && (forall a :: a in arcs && a.op.Some? ==> a.pfunc <= ops[a.op.value].pfunc)
  {
    hide FlowPos, ArcsUpTo;
    ArcsUpToShape(one, ops, flows, stop, |ops|);
    var up := ArcsUpTo(one, ops, flows, stop, |ops|);
    var arcs := BlockArcs(one, ops, flows, stop);
    assert forall j :: 0 <= j < |up| ==> arcs[j] == up[j] && up[j] in up;
  }

  /** Without register branches the exits and the residual partition the valuations. */
  lemma ExitsPartition(one: Func, ops: seq<Oper>, flows: seq<nat>, stop: nat, v: Valuation)
    requires forall o :: o in ops ==> !o.branch.RegisterBranch?
    requires !Stuck(ops, |flows|, |ops|)
    requires v in one
    ensures var arcs := ArcsUpTo(one, ops, flows, stop, |ops|);
      && (forall p, q :: 0 <= p < q < |arcs| ==> arcs[p].pfunc !! arcs[q].pfunc)
      && (forall a :: a in arcs ==> a.pfunc !! Residual(one, ops, |ops|))
      && (v in Residual(one, ops, |ops|) || exists a :: a in arcs && v in a.pfunc)
  {
    ArcsUpToShape(one, ops, flows, stop, |ops|);
    var arcs := ArcsUpTo(one, ops, flows, stop, |ops|);
    forall p, q | 0 <= p < q < |arcs|
      ensures arcs[p].pfunc !! arcs[q].pfunc
    {
      assert arcs[p] in arcs && arcs[q] in arcs;
      assert ops[arcs[q].op.value] in ops && ops[arcs[p].op.value] in ops;
    }
    forall a | a in arcs
      ensures a.pfunc !! Residual(one, ops, |ops|)
    {
      assert ops[a.op.value] in ops;
    }
    if v !in Residual(one, ops, |ops|) {
      var i := FirstExit(ops, |ops|, v);
      var a := ArcOfOp(one, ops, flows, stop, i, |ops|);
      assert v in a.pfunc;
    }
  }

  lemma {:induction false} FirstExit(ops: seq<Oper>, n: nat, v: Valuation) returns (i: nat)
    requires n <= |ops| && LeftBefore(ops, n, v)
    ensures i < n && !LeftBefore(ops, i, v) && Fires(ops[i], v) && !ops[i].branch.RegisterBranch?
  {
    if LeftBefore(ops, n - 1, v) {
      i := FirstExit(ops, n - 1, v);
    } else {
      i := n - 1;
    }
  }

  lemma {:induction false} ArcOfOp(one: Func, ops: seq<Oper>, flows: seq<nat>, stop: nat, i: nat, n: nat)
    returns (a: Arc)
    requires i < n <= |ops| && !Stuck(ops, |flows|, n)
    requires !ops[i].branch.NoBranch? && !ops[i].branch.RegisterBranch?
    ensures a in ArcsUpTo(one, ops, flows, stop, n) && a.op == Some(i) && a.pfunc == ExitSet(one, ops, i)
  {
    hide ExitSet, OpArcs, FlowPos, StuckAt;
    if i == n - 1 {
      assert !StuckAt(ops, |flows|, i);
      a := OwnArc(one, ops, flows, stop, i);
    } else {
      a := ArcOfOp(one, ops, flows, stop, i, n - 1);
    }
  }

  lemma OwnArc(one: Func, ops: seq<Oper>, flows: seq<nat>, stop: nat, i: nat) returns (a: Arc)
    requires i < |ops| && !StuckAt(ops, |flows|, i)
    requires !ops[i].branch.NoBranch? && !ops[i].branch.RegisterBranch?
    ensures a in OpArcs(one, ops, flows, stop, i) && a.op == Some(i) && a.pfunc == ExitSet(one, ops, i)
  {
    hide ExitSet, FlowPos;
    a := OpArcs(one, ops, flows, stop, i)[0];
  }

  /** Exits of two operations overlap exactly when the earlier one is a register branch, and
      then on every valuation of the later exit that satisfies the register branch's predicate. */
  lemma ExitOverlap(one: Func, ops: seq<Oper>, i: nat, j: nat)
    requires i < j < |ops|
    ensures ExitSet(one, ops, i) * ExitSet(one, ops, j) ==
            if ops[i].branch.RegisterBranch? then ops[i].pfunc * ExitSet(one, ops, j) else {}
  {
  }

  // ----- where the exits go, from the operations alone -----

  predicate IsJump(o: Oper) {
    o.branch.Jump? || o.branch.CondBranch?
  }

  /** Number of jumps and conditional branches before position i. */
  ghost function Jumps(ops: seq<Oper>, i: nat): nat
    requires i <= |ops|
  {
    if i == 0 then 0 else Jumps(ops, i - 1) + if IsJump(ops[i - 1]) then 1 else 0
  }

  ghost predicate RegisterBranchBefore(ops: seq<Oper>, i: nat)
    requires i <= |ops|
  {
    exists j :: 0 <= j < i && ops[j].branch.RegisterBranch?
  }

  ghost predicate FromReturn(ops: seq<Oper>, a: Arc) {
    a.op.Some? && a.op.value < |ops| && ops[a.op.value].branch.Return?
  }

  /** The blocks that the arcs reach, except those of returns, in order. */
  ghost function Successors(ops: seq<Oper>, arcs: seq<Arc>): seq<nat> {
    if arcs == [] then []
    else
      var n := |arcs| - 1;
      Successors(ops, arcs[..n]) + if FromReturn(ops, arcs[n]) then [] else [arcs[n].succ]
  }

  /** Returns go to the stop node, the other arcs use up the flows one by one, and a register branch
      leaves none over. */
  ghost predicate TargetsInOrder(ops: seq<Oper>, flows: seq<nat>, stop: nat, arcs: seq<Arc>) {
    && (forall a :: a in arcs && FromReturn(ops, a) ==> a.succ == stop)
    && Successors(ops, arcs) <= flows
    && (RegisterBranchBefore(ops, |ops|) ==> Successors(ops, arcs) == flows)
  }

  ghost predicate OnlyArc(arcs: seq<Arc>, i: nat, p: nat) {
    p < |arcs| && forall q :: 0 <= q < |arcs| ==> (arcs[q].op == Some(i) <==> q == p)
  }

  /** A jump, a conditional branch and a return have one arc each, an operation that is no branch has
      none, and arcs belong to operations or are the fall-through. */
  ghost predicate OwnArcs(ops: seq<Oper>, arcs: seq<Arc>) {
    && (forall i :: 0 <= i < |ops| && (IsJump(ops[i]) || ops[i].branch.Return?) ==> exists p :: OnlyArc(arcs, i, p))
    && (forall a :: a in arcs && a.op.Some? ==> a.op.value < |ops| && !ops[a.op.value].branch.NoBranch?)
  }

  /** The fall-through arc exists when a flow is left over, comes last, and goes to that flow. */
  ghost predicate LeftOver(ops: seq<Oper>, flows: seq<nat>, arcs: seq<Arc>) {
    var n := |arcs| - 1;
    && ((exists a :: a in arcs && a.op == None) <==>
        !RegisterBranchBefore(ops, |ops|) && Jumps(ops, |ops|) < |flows|)
    && (forall p :: 0 <= p < |arcs| && arcs[p].op == None ==>
          && p == n
          && Successors(ops, arcs[..p]) == flows[..Jumps(ops, |ops|)]
          && arcs[p].succ == flows[Jumps(ops, |ops|)])
  }

  /** The flow cursor from the operations alone. */
  lemma {:induction false} FlowPosIs(ops: seq<Oper>, flows: nat, i: nat)
    requires i <= |ops|
    ensures !RegisterBranchBefore(ops, i) ==> FlowPos(ops, flows, i) == Jumps(ops, i)
    ensures RegisterBranchBefore(ops, i) ==> FlowPos(ops, flows, i) >= flows
  {
    if i > 0 {
      FlowPosIs(ops, flows, i - 1);
    }
  }

  /** The scan fails exactly at a conditional branch without a condition, and at a jump or conditional
      branch for which no flow is left. */
  lemma StuckExactly(ops: seq<Oper>, flows: nat)
    ensures Stuck(ops, flows, |ops|) <==>
            exists j :: 0 <= j < |ops| && IsJump(ops[j])
                        && (ops[j].branch == CondBranch(None) || RegisterBranchBefore(ops, j) || Jumps(ops, j) >= flows)
  {
    forall j | 0 <= j < |ops|
      ensures StuckAt(ops, flows, j) <==>
              && IsJump(ops[j])
              && (ops[j].branch == CondBranch(None) || RegisterBranchBefore(ops, j) || Jumps(ops, j) >= flows)
    {
      FlowPosIs(ops, flows, j);
    }
  }

  lemma {:induction false} CursorFits(ops: seq<Oper>, flows: nat, i: nat)
    requires i <= |ops| && !Stuck(ops, flows, i)
    ensures FlowPos(ops, flows, i) <= flows
  {
    if i > 0 {
      CursorFits(ops, flows, i - 1);
      assert !StuckAt(ops, flows, i - 1);
    }
  }

  lemma {:induction false} SuccessorsConcat(ops: seq<Oper>, a: seq<Arc>, b: seq<Arc>)
    ensures Successors(ops, a + b) == Successors(ops, a) + Successors(ops, b)
    decreases |b|
  {
    hide FromReturn;
    if b == [] {
      assert a + b == a;
    } else {
      var n := |b| - 1;
      SuccessorsConcat(ops, a, b[..n]);
      assert (a + b)[..|a + b| - 1] == a + b[..n];
    }
  }

  lemma {:induction false} FlowArcsSuccessors(ops: seq<Oper>, i: nat, flows: seq<nat>, f: Func)
    requires i < |ops| && !ops[i].branch.Return?
    ensures Successors(ops, FlowArcs(Some(i), flows, f)) == flows
  {
    if flows != [] {
      var n := |flows| - 1;
      FlowArcsSuccessors(ops, i, flows[..n], f);
      assert FlowArcs(Some(i), flows, f)[..n] == FlowArcs(Some(i), flows[..n], f);
    }
  }

  /** The arcs of one operation take the next flows. */
  lemma OpSuccessors(one: Func, ops: seq<Oper>, flows: seq<nat>, stop: nat, i: nat)
    requires i < |ops| && !StuckAt(ops, |flows|, i) && FlowPos(ops, |flows|, i) <= |flows|
    ensures flows[..FlowPos(ops, |flows|, i)] + Successors(ops, OpArcs(one, ops, flows, stop, i))
            == flows[..FlowPos(ops, |flows|, i + 1)]
    ensures ops[i].branch.Return? ==> OpArcs(one, ops, flows, stop, i)[0].succ == stop
  {
    hide ExitSet, Successors, FlowArcs, Stuck;
    var pos, f := FlowPos(ops, |flows|, i), ExitSet(one, ops, i);
    match ops[i].branch
    case NoBranch => NoSuccessors(ops, flows, |flows|);
    case Return => OneSuccessor(ops, Arc(Some(i), stop, f));
    case RegisterBranch =>
      FlowArcsSuccessors(ops, i, flows[pos..], f);
      assert flows[..pos] + flows[pos..] == flows;
    case _ =>
      OneSuccessor(ops, Arc(Some(i), flows[pos], f));
      assert flows[..pos] + [flows[pos]] == flows[..pos + 1];
  }

  lemma OneSuccessor(ops: seq<Oper>, a: Arc)
    ensures Successors(ops, [a]) == if FromReturn(ops, a) then [] else [a.succ]
  {
    assert [a][..0] == [];
  }

  lemma {:induction false} SuccessorsUpTo(one: Func, ops: seq<Oper>, flows: seq<nat>, stop: nat, i: nat)
    requires i <= |ops| && !Stuck(ops, |flows|, i)
    ensures FlowPos(ops, |flows|, i) <= |flows|
    ensures Successors(ops, ArcsUpTo(one, ops, flows, stop, i)) == flows[..FlowPos(ops, |flows|, i)]
    ensures forall a :: a in ArcsUpTo(one, ops, flows, stop, i) && FromReturn(ops, a) ==> a.succ == stop
  {
    hide ExitSet, OpArcs, FlowPos, Successors, StuckAt;
    CursorFits(ops, |flows|, i);
    if i == 0 {
      NoSuccessors(ops, flows, |flows|);
    } else {
      var k := i - 1;
      SuccessorsUpTo(one, ops, flows, stop, k);
      assert !StuckAt(ops, |flows|, k);
      OpSuccessors(one, ops, flows, stop, k);
      OpArcsShape(one, ops, flows, stop, k);
      SuccessorsConcat(ops, ArcsUpTo(one, ops, flows, stop, k), OpArcs(one, ops, flows, stop, k));
    }
  }

  lemma NoSuccessors(ops: seq<Oper>, flows: seq<nat>, n: nat)
    ensures Successors(ops, []) == [] && FlowPos(ops, n, 0) == 0
  {
  }

  lemma OneOwnArc(one: Func, ops: seq<Oper>, flows: seq<nat>, stop: nat, i: nat) returns (p: nat)
    requires i < |ops| && !Stuck(ops, |flows|, |ops|)
    requires IsJump(ops[i]) || ops[i].branch.Return?
    ensures OnlyArc(BlockArcs(one, ops, flows, stop), i, p)
  {
    hide ExitSet, FlowPos, Stuck;
    var up, arcs := ArcsUpTo(one, ops, flows, stop, |ops|), BlockArcs(one, ops, flows, stop);
    ArcsUpToShape(one, ops, flows, stop, |ops|);
    var a := ArcOfOp(one, ops, flows, stop, i, |ops|);
    p :| 0 <= p < |up| && up[p] == a;
    assert forall q :: 0 <= q < |up| ==> arcs[q] == up[q];
    forall q | 0 <= q < |arcs|
      ensures arcs[q].op == Some(i) <==> q == p
    {
      if q < p {
        assert Precedes(ops, up[q], up[p]);
      } else if p < q < |up| {
        assert Precedes(ops, up[p], up[q]);
      }
    }
  }

  /** Every block the builder accepts: which arcs there are and where they go, told by the branches
      and the list of flows. */
  lemma ExitTargets(one: Func, ops: seq<Oper>, flows: seq<nat>, stop: nat)
    requires !Stuck(ops, |flows|, |ops|)
    ensures var arcs := BlockArcs(one, ops, flows, stop);
      TargetsInOrder(ops, flows, stop, arcs) && OwnArcs(ops, arcs) && LeftOver(ops, flows, arcs)
  {
    hide ExitSet, OpArcs, FlowPos, Stuck, ArcsUpTo, OnlyArc, TargetsInOrder, LeftOver, BlockArcs;
    var arcs := BlockArcs(one, ops, flows, stop);
    ExitOrder(one, ops, flows, stop);
    ArcsInOpOrder(one, ops, flows, stop);
    ArcsHaveBranches(one, ops, flows, stop);
    forall i | 0 <= i < |ops| && (IsJump(ops[i]) || ops[i].branch.Return?)
      ensures exists p :: OnlyArc(arcs, i, p)
    {
      var p := OneOwnArc(one, ops, flows, stop, i);
    }
  }

  lemma ArcsHaveBranches(one: Func, ops: seq<Oper>, flows: seq<nat>, stop: nat)
    ensures forall a :: a in BlockArcs(one, ops, flows, stop) && a.op.Some? ==>
              a.op.value < |ops| && !ops[a.op.value].branch.NoBranch?
  {
    hide ExitSet, OpArcs, FlowPos, ArcsUpTo;
    ArcsUpToShape(one, ops, flows, stop, |ops|);
  }

  lemma ExitOrder(one: Func, ops: seq<Oper>, flows: seq<nat>, stop: nat)
    requires !Stuck(ops, |flows|, |ops|)
    ensures var arcs := BlockArcs(one, ops, flows, stop);
      TargetsInOrder(ops, flows, stop, arcs) && LeftOver(ops, flows, arcs)
  {
    hide ExitSet, FlowPos, OpArcs, Stuck, ArcsUpTo, RegisterBranchBefore, Jumps, FromReturn, Successors, Residual;
    var pos := FlowPos(ops, |flows|, |ops|);
    var up, arcs := ArcsUpTo(one, ops, flows, stop, |ops|), BlockArcs(one, ops, flows, stop);
    FlowPosIs(ops, |flows|, |ops|);
    SuccessorsUpTo(one, ops, flows, stop, |ops|);
    ArcsUpToShape(one, ops, flows, stop, |ops|);
    if pos < |flows| {
      var last := arcs[|up|];
      assert arcs[..|up|] == up && last.op == None;
      FallThroughIsNoReturn(ops, last);
      assert arcs == up + [last];
      SuccessorsConcat(ops, up, [last]);
      OneSuccessor(ops, last);
      assert flows[..pos] + [flows[pos]] == flows[..pos + 1];
    } else {
      assert arcs == up && flows[..pos] == flows;
    }
  }

  lemma FallThroughIsNoReturn(ops: seq<Oper>, a: Arc)
    requires a.op == None
    ensures !FromReturn(ops, a)
  {
  }

  /** Exit functions from the operations alone: the operation fires, and none before it, register
      branches aside, does; the fall-through is taken when none at all does. */
  lemma ExitFunctions(one: Func, ops: seq<Oper>, flows: seq<nat>, stop: nat, a: Arc, v: Valuation)
    requires a in BlockArcs(one, ops, flows, stop)
    ensures a.op.Some? ==> a.op.value < |ops|
    ensures var n := if a.op.Some? then a.op.value else |ops|;
      v in a.pfunc <==>
      && v in one && (a.op.Some? ==> Fires(ops[a.op.value], v))
      && forall j :: 0 <= j < n && Fires(ops[j], v) ==> ops[j].branch.RegisterBranch?
  {
    hide FlowPos, ArcsUpTo, Fires;
    ArcsUpToShape(one, ops, flows, stop, |ops|);
  }
}
