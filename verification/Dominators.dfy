/** The dominator half of the control-dependence analysis, over an arbitrary graph given by
    its predecessor lists. */
module Dominators {
  import opened Collections

  type Preds = seq<seq<nat>>

  ghost predicate ValidGraph(preds: Preds, start: nat) {
    && start < |preds|
    && forall n, p :: 0 <= n < |preds| && p in preds[n] ==> p < |preds|
  }

  /** A path from start to n, both included. */
  ghost predicate IsPath(preds: Preds, start: nat, n: nat, path: seq<nat>) {
    && path != []
    && path[0] == start && path[|path| - 1] == n
    && (forall i :: 0 <= i < |path| ==> path[i] < |preds|)
    && (forall i :: 0 < i < |path| ==> path[i - 1] in preds[path[i]])
  }

  /** d lies on every path from start to n. */
  ghost predicate Dominates(preds: Preds, start: nat, d: nat, n: nat) {
    d < |preds| && forall path :: IsPath(preds, start, n, path) ==> d in path
  }

  function Nodes(count: nat): (s: set<nat>)
    ensures forall n :: n in s <==> 0 <= n < count
  {
    if count == 0 then {} else Nodes(count - 1) + {count - 1}
  }

  lemma PathSnoc(preds: Preds, start: nat, p: nat, n: nat, path: seq<nat>)
    requires IsPath(preds, start, p, path) && n < |preds| && p in preds[n]
    ensures IsPath(preds, start, n, path + [n])
  {
  }

  /** A dominator of n, other than n, dominates every predecessor of n. */
  lemma DominatesPred(preds: Preds, start: nat, d: nat, n: nat, p: nat)
    requires n < |preds| && p in preds[n] && d != n && Dominates(preds, start, d, n)
    ensures Dominates(preds, start, d, p)
  {
    forall path | IsPath(preds, start, p, path)
      ensures d in path
    {
      PathSnoc(preds, start, p, n, path);
      assert d in path + [n];
    }
  }

  /** Every state of the loop: the sets hold all true dominators, the node itself, and only
      graph nodes; the start node's set is final from the beginning. */
  ghost predicate Over(preds: Preds, start: nat, dom: seq<set<nat>>)
    requires ValidGraph(preds, start)
  {
    && |dom| == |preds|
    && dom[start] == {start}
    && (forall n :: 0 <= n < |preds| ==> n in dom[n] && dom[n] <= Nodes(|preds|))
    && (forall n, d :: 0 <= n < |preds| && Dominates(preds, start, d, n) ==> d in dom[n])
  }

  ghost predicate StableAt(preds: Preds, dom: seq<set<nat>>, n: nat)
    requires n < |preds| == |dom|
  {
    forall p :: p in preds[n] && p < |dom| ==> dom[n] <= dom[p] + {n}
  }

  /** In a stable state nothing is claimed that some path avoids. */
  lemma {:induction false} StableIsOnPath(preds: Preds, start: nat, dom: seq<set<nat>>, n: nat, d: nat, path: seq<nat>)
    requires ValidGraph(preds, start) && Over(preds, start, dom)
    requires forall m :: 0 <= m < |preds| ==> StableAt(preds, dom, m)
    requires IsPath(preds, start, n, path) && d in dom[n]
    ensures d in path
    decreases |path|
  {
    var k := |path| - 1;
    if k > 0 && d != n {
      var p := path[k - 1];
      assert StableAt(preds, dom, n) && p in preds[n];
      assert d in dom[p] + {n};
      StableIsOnPath(preds, start, dom, p, d, path[..k]);
      assert path == path[..k] + [n];
    }
  }

  // ----- termination measure -----

  ghost function Total(dom: seq<set<nat>>): nat {
    if dom == [] then 0 else |dom[0]| + Total(dom[1..])
  }

  lemma {:induction false} TotalDrops(dom: seq<set<nat>>, n: nat, smaller: set<nat>)
    requires n < |dom| && smaller < dom[n]
    ensures Total(dom[n := smaller]) < Total(dom)
  {
    var after := dom[n := smaller];
    if n == 0 {
      assert after[1..] == dom[1..];
      var x := Outside(dom[0], smaller);
      Shrinks(smaller, dom[0], x);
    } else {
      assert after[1..] == dom[1..][n - 1 := smaller];
      TotalDrops(dom[1..], n - 1, smaller);
    }
  }

  // ----- the algorithm -----

  class DomFlow {
    const preds: Preds
    const start: nat
    var dom: seq<set<nat>>

    constructor (preds: Preds, start: nat)
      ensures this.preds == preds && this.start == start
    {
      this.preds := preds;
      this.start := start;
      dom := [];
    }

    method Initialize()
      requires ValidGraph(preds, start)
      modifies this
      ensures Over(preds, start, dom)
    {
      var universe := Nodes(|preds|);
      dom := [];
      for n := 0 to |preds|
        invariant |dom| == n
        invariant forall m :: 0 <= m < n ==> dom[m] == if m == start then {start} else universe
      {
        dom := dom + [if n == start then {start} else universe];
      }
      forall n, d | 0 <= n < |preds| && Dominates(preds, start, d, n)
        ensures d in dom[n]
      {
        if n == start {
          assert IsPath(preds, start, n, [start]);
          assert d in [start];
        }
      }
    }

    /** Intersects a node's set with those of its predecessors and puts the node back in. */
    method Refine(n: nat) returns (changed: bool)
      requires ValidGraph(preds, start) && Over(preds, start, dom) && n < |preds|
      modifies this`dom
      ensures Over(preds, start, dom)
      ensures !changed ==> dom == old(dom) && StableAt(preds, dom, n)
      ensures changed ==> Total(dom) < Total(old(dom))
    {
      var tmp := dom[n];
      for i := 0 to |preds[n]|
        invariant tmp <= dom[n]
        invariant forall d :: Dominates(preds, start, d, n) && d != n ==> d in tmp
        invariant forall p :: p in preds[n][..i] ==> p < |dom| && tmp <= dom[p]
      {
        var p := preds[n][i];
        assert p in preds[n];
        forall d | Dominates(preds, start, d, n) && d != n
          ensures d in dom[p]
        {
          DominatesPred(preds, start, d, n, p);
        }
        assert preds[n][..i + 1] == preds[n][..i] + [p];
        tmp := tmp * dom[p];
      }
      assert preds[n][..|preds[n]|] == preds[n];
      tmp := tmp + {n};
      changed := tmp != dom[n];
      if changed {
        TotalDrops(dom, n, tmp);
        dom := dom[n := tmp];
      }
    }

    method Round() returns (change: bool)
      requires ValidGraph(preds, start) && Over(preds, start, dom)
      modifies this`dom
      ensures Over(preds, start, dom)
      ensures change ==> Total(dom) < Total(old(dom))
      ensures !change ==> dom == old(dom) && forall n :: 0 <= n < |preds| ==> StableAt(preds, dom, n)
    {
      change := false;
      for n := 0 to |preds|
        invariant Over(preds, start, dom)
        invariant change ==> Total(dom) < Total(old(dom))
        invariant !change ==> dom == old(dom) && forall m :: 0 <= m < n ==> StableAt(preds, dom, m)
      {
        var c := Refine(n);
        change := change || c;
      }
    }

    /** Dominator sets of the whole graph. */
    method Run()
      requires ValidGraph(preds, start)
      modifies this
      ensures |dom| == |preds|
      ensures forall n, d :: 0 <= n < |preds| ==> (d in dom[n] <==> Dominates(preds, start, d, n))
    {
      Initialize();
      var change := true;
      while change
        invariant Over(preds, start, dom)
        invariant !change ==> forall n :: 0 <= n < |preds| ==> StableAt(preds, dom, n)
        decreases Total(dom), change
      {
        change := Round();
      }
      forall n, d | 0 <= n < |preds| && d in dom[n]
        ensures Dominates(preds, start, d, n)
      {
        forall path | IsPath(preds, start, n, path)
          ensures d in path
        {
          StableIsOnPath(preds, start, dom, n, d, path);
        }
      }
    }
  }
}
