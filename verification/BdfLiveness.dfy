/** The local phase of predicate-aware live variables: gen and kill functions of a block, its gen
    set and the kill set of each of its exits. */
module BdfLiveness {
  import opened Collections
  import opened BoolFunc
  import opened BdfGraph

  datatype Block = Block(ops: seq<Oper>, exits: seq<Arc>)

  // ----- what a block does to a register under one valuation -----

  datatype Access = Untouched | Use | Def

  /** The operand list, guarded by pf, refers to register r under valuation v. */
  predicate Touches(opds: seq<Operand>, pf: Func, v: Valuation, r: int) {
    exists o :: o in opds && o.reg == r && (o.uncond || v in pf)
  }

  /** The first thing the operations do to r under v; an operation reads before it writes. */
  function FirstAccess(ops: seq<Oper>, v: Valuation, r: int): Access {
    if ops == [] then Untouched
    else
      var n := |ops| - 1;
      var before := FirstAccess(ops[..n], v, r);
      if before != Untouched then before
      else if Touches(ops[n].src, ops[n].pfunc, v, r) then Use
      else if Touches(ops[n].dest, ops[n].pfunc, v, r) then Def
      else Untouched
  }

  predicate Defines(ops: seq<Oper>, v: Valuation, r: int) {
    exists o :: o in ops && Touches(o.dest, o.pfunc, v, r)
  }

  /** r is written somewhere in ops, under whatever predicate. */
  predicate IsDest(ops: seq<Oper>, r: int) {
    exists o :: o in ops && r in Regs(o.dest)
  }

  function Regs(opds: seq<Operand>): set<int> {
    set o | o in opds :: o.reg
  }

  /** The operations executed up to an exit. */
  function UpTo(b: Block, a: Arc): seq<Oper>
    requires a.op.Some? ==> a.op.value < |b.ops|
  {
    if a.op.Some? then b.ops[..a.op.value + 1] else b.ops
  }

  ghost predicate ValidBlock(one: Func, nodes: nat, b: Block) {
    && InOpOrder(b.ops, b.exits)
    && (forall o :: o in b.ops ==> o.pfunc <= one)
    && (forall a :: a in b.exits ==> a.pfunc <= one && a.succ < nodes)
  }

  ghost predicate ValidGraph(one: Func, blocks: seq<Block>) {
    forall b :: b in blocks ==> ValidBlock(one, |blocks|, b)
  }

  /** Operation i reads r under v, and nothing before it writes r; what it writes itself comes later. */
  ghost predicate ReadAt(ops: seq<Oper>, v: Valuation, r: int, i: nat) {
    && i < |ops| && Touches(ops[i].src, ops[i].pfunc, v, r)
    && forall j :: 0 <= j < i ==> !Touches(ops[j].dest, ops[j].pfunc, v, r)
  }

  /** Operation i writes r under v, and nothing before it or in it reads r. */
  ghost predicate WrittenAt(ops: seq<Oper>, v: Valuation, r: int, i: nat) {
    && i < |ops| && Touches(ops[i].dest, ops[i].pfunc, v, r)
    && forall j :: 0 <= j <= i ==> !Touches(ops[j].src, ops[j].pfunc, v, r)
  }

  ghost predicate TouchedAt(ops: seq<Oper>, v: Valuation, r: int, i: nat) {
    i < |ops| && (Touches(ops[i].src, ops[i].pfunc, v, r) || Touches(ops[i].dest, ops[i].pfunc, v, r))
  }

  /** The first access, by positions. */
  lemma {:induction false} FirstAccessIs(ops: seq<Oper>, v: Valuation, r: int)
    ensures FirstAccess(ops, v, r) == Use <==> exists i :: ReadAt(ops, v, r, i)
    ensures FirstAccess(ops, v, r) == Def <==> exists i :: WrittenAt(ops, v, r, i)
    ensures FirstAccess(ops, v, r) == Untouched <==> forall i :: !TouchedAt(ops, v, r, i)
  {
    hide Touches;
    if ops != [] {
      var n := |ops| - 1;
      var first := ops[..n];
      FirstAccessIs(first, v, r);
      forall i | 0 <= i < n
        ensures ReadAt(ops, v, r, i) <==> ReadAt(first, v, r, i)
        ensures WrittenAt(ops, v, r, i) <==> WrittenAt(first, v, r, i)
        ensures TouchedAt(ops, v, r, i) <==> TouchedAt(first, v, r, i)
      {
        SamePrefix(ops, n, v, r, i);
      }
      if FirstAccess(first, v, r) == Untouched {
        UntouchedSoFar(ops, n, v, r);
        if FirstAccess(ops, v, r) == Untouched {
          assert !TouchedAt(ops, v, r, n);
        } else {
          assert TouchedAt(ops, v, r, n);
        }
      } else if FirstAccess(first, v, r) == Use {
        var i :| ReadAt(first, v, r, i);
        assert ReadAt(ops, v, r, i) && TouchedAt(ops, v, r, i);
        assert !WrittenAt(ops, v, r, n);
      } else {
        var i :| WrittenAt(first, v, r, i);
        assert WrittenAt(ops, v, r, i) && TouchedAt(ops, v, r, i);
        assert !ReadAt(ops, v, r, n);
      }
    }
  }

  /** What the operation after an untouched prefix does. */
  lemma UntouchedSoFar(ops: seq<Oper>, n: nat, v: Valuation, r: int)
    requires n < |ops| && forall i :: !TouchedAt(ops[..n], v, r, i)
    ensures ReadAt(ops, v, r, n) <==> Touches(ops[n].src, ops[n].pfunc, v, r)
    ensures WrittenAt(ops, v, r, n) <==>
            Touches(ops[n].dest, ops[n].pfunc, v, r) && !Touches(ops[n].src, ops[n].pfunc, v, r)
    ensures forall i :: 0 <= i < n ==> !TouchedAt(ops, v, r, i)
  {
    hide Touches;
    forall j | 0 <= j < n
      ensures !Touches(ops[j].src, ops[j].pfunc, v, r) && !Touches(ops[j].dest, ops[j].pfunc, v, r)
    {
      assert !TouchedAt(ops[..n], v, r, j) && ops[..n][j] == ops[j];
    }
  }

  lemma SamePrefix(ops: seq<Oper>, n: nat, v: Valuation, r: int, i: nat)
    requires i < n <= |ops|
    ensures ReadAt(ops, v, r, i) <==> ReadAt(ops[..n], v, r, i)
    ensures WrittenAt(ops, v, r, i) <==> WrittenAt(ops[..n], v, r, i)
    ensures TouchedAt(ops, v, r, i) <==> TouchedAt(ops[..n], v, r, i)
  {
    hide Touches;
    assert forall j :: 0 <= j <= i ==> ops[..n][j] == ops[j];
  }

  lemma {:induction false} FirstAccessOfPrefix(ops: seq<Oper>, n: nat, v: Valuation, r: int)
    requires n <= |ops| && FirstAccess(ops[..n], v, r) != Untouched
    ensures FirstAccess(ops, v, r) == FirstAccess(ops[..n], v, r)
  {
    if n == |ops| {
      assert ops[..n] == ops;
    } else {
      assert ops[..|ops| - 1][..n] == ops[..n];
      FirstAccessOfPrefix(ops[..|ops| - 1], n, v, r);
    }
  }

  lemma {:induction false} UntouchedDefinesNothing(ops: seq<Oper>, v: Valuation, r: int)
    ensures FirstAccess(ops, v, r) == Untouched ==> !Defines(ops, v, r)
    ensures FirstAccess(ops, v, r) == Def ==> Defines(ops, v, r)
  {
    if ops != [] {
      var n := |ops| - 1;
      UntouchedDefinesNothing(ops[..n], v, r);
      assert ops == ops[..n] + [ops[n]];
      assert forall o :: o in ops <==> o in ops[..n] || o == ops[n];
    }
  }

  /** Number of operations executed when the exit is taken, the branch included. */
  function Executed(ops: seq<Oper>, a: Arc): nat {
    if a.op.Some? then a.op.value + 1 else |ops|
  }

  /** r is written, under whatever predicate, by one of the first n operations. */
  ghost predicate DestBefore(ops: seq<Oper>, r: int, n: nat)
    requires n <= |ops|
  {
    exists j, k :: 0 <= j < n && 0 <= k < |ops[j].dest| && ops[j].dest[k].reg == r
  }

  /** One of the first n operations writes r under v. */
  ghost predicate WritesBefore(ops: seq<Oper>, v: Valuation, r: int, n: nat)
    requires n <= |ops|
  {
    exists j :: 0 <= j < n && Touches(ops[j].dest, ops[j].pfunc, v, r)
  }

  lemma DestBeforeIs(ops: seq<Oper>, r: int, n: nat)
    requires n <= |ops|
    ensures IsDest(ops[..n], r) <==> DestBefore(ops, r, n)
  {
    if o :| o in ops[..n] && r in Regs(o.dest) {
      var j :| 0 <= j < n && ops[..n][j] == o;
      var d :| d in o.dest && d.reg == r;
      var k :| 0 <= k < |o.dest| && o.dest[k] == d;
      assert ops[j].dest[k].reg == r;
    }
    if j, k :| 0 <= j < n && 0 <= k < |ops[j].dest| && ops[j].dest[k].reg == r {
      assert ops[..n][j] in ops[..n] && ops[j].dest[k] in ops[j].dest;
    }
  }

  lemma WritesBeforeIs(ops: seq<Oper>, v: Valuation, r: int, n: nat)
    requires n <= |ops|
    ensures Defines(ops[..n], v, r) <==> WritesBefore(ops, v, r, n)
  {
    hide Touches;
    if j :| 0 <= j < n && Touches(ops[j].dest, ops[j].pfunc, v, r) {
      assert ops[..n][j] in ops[..n];
    }
  }

  /** An exit kills r, by positions: one of the operations executed names it as a destination, and
      under every valuation of the exit it is written there before any of them has read it. */
  lemma KillsIs(b: Block, a: Arc, r: int)
    requires Executed(b.ops, a) <= |b.ops|
    ensures Kills(b, a, r) <==>
            && DestBefore(b.ops, r, Executed(b.ops, a))
            && forall v :: v in a.pfunc ==> exists i :: 0 <= i < Executed(b.ops, a) && WrittenAt(b.ops, v, r, i)
  {
    hide Touches, FirstAccess, IsDest, DestBefore, WrittenAt;
    var n := Executed(b.ops, a);
    assert b.ops[..|b.ops|] == b.ops;
    DestBeforeIs(b.ops, r, n);
    forall v
      ensures FirstAccess(b.ops[..n], v, r) == Def <==> exists i :: 0 <= i < n && WrittenAt(b.ops, v, r, i)
    {
      WrittenInPrefix(b.ops, n, v, r);
    }
  }

  lemma WrittenInPrefix(ops: seq<Oper>, n: nat, v: Valuation, r: int)
    requires n <= |ops|
    ensures FirstAccess(ops[..n], v, r) == Def <==> exists i :: 0 <= i < n && WrittenAt(ops, v, r, i)
  {
    hide Touches, FirstAccess;
    FirstAccessIs(ops[..n], v, r);
    if i :| 0 <= i < n && WrittenAt(ops, v, r, i) {
      SamePrefix(ops, n, v, r, i);
    }
    if i :| WrittenAt(ops[..n], v, r, i) {
      SamePrefix(ops, n, v, r, i);
    }
  }

  // ----- local phase -----

  function Lookup(fn: map<int, Func>, r: int): Func {
    if r in fn then fn[r] else {}
  }

  /** itbl grew from `before` to `after` by the guarded accesses that etbl does not claim. */
  ghost predicate Extended(before: map<int, Func>, after: map<int, Func>, etbl: map<int, Func>,
                           one: Func, pf: Func, opds: seq<Operand>)
  {
    forall r, v :: ExtendedAt(before, after, etbl, one, pf, opds, r, v)
  }

  ghost predicate ExtendedAt(before: map<int, Func>, after: map<int, Func>, etbl: map<int, Func>,
                             one: Func, pf: Func, opds: seq<Operand>, r: int, v: Valuation)
  {
    v in Lookup(after, r) <==>
      v in Lookup(before, r) || (v in one && Touches(opds, pf, v, r) && v !in Lookup(etbl, r))
  }

  /** A table from registers to Boolean functions; an absent register maps to false. */
  class FuncTable {
    var fn: map<int, Func>

    constructor ()
      ensures fn == map[]
    {
      fn := map[];
    }

    function At(r: int): Func
      reads this
    {
      Lookup(fn, r)
    }

    ghost predicate Bounded(one: Func)
      reads this
    {
      forall r :: r in fn ==> fn[r] <= one
    }
  }

  /** Adds to itbl, register by register, the valuations under which the operands are
      accessed and etbl has not claimed them first. */
  method AddOperandsExcl(itbl: FuncTable, etbl: FuncTable, one: Func, pf: Func, opds: seq<Operand>)
    requires itbl != etbl && pf <= one && itbl.Bounded(one)
    modifies itbl
    ensures itbl.Bounded(one)
    ensures itbl.fn.Keys == old(itbl.fn.Keys) + Regs(opds)
    ensures Extended(old(itbl.fn), itbl.fn, etbl.fn, one, pf, opds)
  {
    for i := 0 to |opds|
      invariant itbl.Bounded(one)
      invariant itbl.fn.Keys == old(itbl.fn.Keys) + Regs(opds[..i])
      invariant Extended(old(itbl.fn), itbl.fn, etbl.fn, one, pf, opds[..i])
    {
      ghost var was := itbl.fn;
      AddOperandExcl(itbl, etbl, one, pf, opds[i]);
      TouchesSnoc(opds, i, pf);
      ExtendedSnoc(old(itbl.fn), was, itbl.fn, etbl.fn, one, pf, opds, i);
    }
    assert opds[..|opds|] == opds;
  }

  method AddOperandExcl(itbl: FuncTable, etbl: FuncTable, one: Func, pf: Func, o: Operand)
    requires itbl != etbl && pf <= one && itbl.Bounded(one)
    modifies itbl
    ensures itbl.Bounded(one)
    ensures itbl.fn.Keys == old(itbl.fn.Keys) + {o.reg}
    ensures Extended(old(itbl.fn), itbl.fn, etbl.fn, one, pf, [o])
    ensures forall r :: r != o.reg ==> itbl.At(r) == old(itbl.At(r))
    ensures forall v :: v in itbl.At(o.reg) <==>
              v in old(itbl.At(o.reg)) || (v in one && (o.uncond || v in pf) && v !in etbl.At(o.reg))
  {
    var fi, fe := itbl.At(o.reg), etbl.At(o.reg);
    var fa := if o.uncond then one else pf;
    fa := Ite(fe, {}, fa);
    itbl.fn := itbl.fn[o.reg := Ite(fi, one, fa)];
    forall r, v
      ensures ExtendedAt(old(itbl.fn), itbl.fn, etbl.fn, one, pf, [o], r, v)
    {
      assert o in [o];
    }
  }

  lemma ExtendedSnoc(before: map<int, Func>, was: map<int, Func>, after: map<int, Func>, etbl: map<int, Func>,
                     one: Func, pf: Func, opds: seq<Operand>, i: nat)
    requires i < |opds|
    requires Extended(before, was, etbl, one, pf, opds[..i])
    requires Extended(was, after, etbl, one, pf, [opds[i]])
    ensures Extended(before, after, etbl, one, pf, opds[..i + 1])
  {
    TouchesSnoc(opds, i, pf);
    var all := opds[..i + 1];
    forall r, v
      ensures ExtendedAt(before, after, etbl, one, pf, all, r, v)
    {
      assert ExtendedAt(before, was, etbl, one, pf, opds[..i], r, v);
      assert ExtendedAt(was, after, etbl, one, pf, [opds[i]], r, v);
    }
  }

  lemma TouchesSnoc(opds: seq<Operand>, i: nat, pf: Func)
    requires i < |opds|
    ensures Regs(opds[..i + 1]) == Regs(opds[..i]) + {opds[i].reg}
    ensures forall r, v :: Touches(opds[..i + 1], pf, v, r) <==>
              Touches(opds[..i], pf, v, r) || Touches([opds[i]], pf, v, r)
  {
  }

  /** Registers whose function covers f. */
  method GenSetSup(h: FuncTable, f: Func) returns (s: set<int>)
    ensures forall r :: r in s <==> r in h.fn && f <= h.fn[r]
  {
    s := {};
    var keys := h.fn.Keys;
    while keys != {}
      invariant keys <= h.fn.Keys
      invariant forall r :: r in s <==> r in h.fn && r !in keys && f <= h.fn[r]
      decreases keys
    {
      ghost var some := Member(keys);
      var k :| k in keys;
      if f <= h.fn[k] {
        s := s + {k};
      }
      keys := keys - {k};
    }
  }

  lemma BelowComplement(one: Func, h: Func, f: Func)
    requires h <= one
    ensures h <= one - f <==> h * f == {}
  {
    if h <= one - f {
      assert forall v :: v !in h * f;
    } else {
      var v :| v in h && v !in one - f;
      assert v in h * f;
    }
  }

  /** Registers whose function meets f. */
  method GenSetIsect(one: Func, h: FuncTable, f: Func) returns (s: set<int>)
    requires h.Bounded(one)
    ensures forall r :: r in s <==> r in h.fn && h.fn[r] * f != {}
  {
    s := {};
    var keys := h.fn.Keys;
    while keys != {}
      invariant keys <= h.fn.Keys
      invariant forall r :: r in s <==> r in h.fn && r !in keys && h.fn[r] * f != {}
      decreases keys
    {
      ghost var some := Member(keys);
      var k :| k in keys;
      BelowComplement(one, h.fn[k], f);
      if !(h.fn[k] <= one - f) {
        s := s + {k};
      }
      keys := keys - {k};
    }
  }

  /** The registers an exit kills: written by an operation up to the exit, and first
      accessed by a write under every valuation that takes the exit. */
  ghost predicate Kills(b: Block, a: Arc, r: int)
    requires a.op.Some? ==> a.op.value < |b.ops|
  {
    IsDest(UpTo(b, a), r) && forall v :: v in a.pfunc ==> FirstAccess(UpTo(b, a), v, r) == Def
  }

  ghost predicate IsKillSet(b: Block, a: Arc, k: set<int>)
    requires a.op.Some? ==> a.op.value < |b.ops|
  {
    forall r :: r in k <==> Kills(b, a, r)
  }

  ghost predicate Gens(one: Func, b: Block, r: int) {
    exists v :: v in one && FirstAccess(b.ops, v, r) == Use
  }

  ghost predicate IsGenSet(one: Func, b: Block, g: set<int>) {
    forall r :: r in g <==> Gens(one, b, r)
  }

  ghost predicate TableIs(one: Func, t: FuncTable, ops: seq<Oper>, what: Access)
    reads t
  {
    forall r, v :: v in t.At(r) <==> v in one && FirstAccess(ops, v, r) == what
  }

  method ScanOper(gtbl: FuncTable, ktbl: FuncTable, one: Func, ghost ops: seq<Oper>, o: Oper)
    requires gtbl != ktbl && o.pfunc <= one
    requires gtbl.Bounded(one) && ktbl.Bounded(one)
    requires TableIs(one, gtbl, ops, Use) && TableIs(one, ktbl, ops, Def)
    modifies gtbl, ktbl
    ensures gtbl.Bounded(one) && ktbl.Bounded(one)
    ensures TableIs(one, gtbl, ops + [o], Use) && TableIs(one, ktbl, ops + [o], Def)
    ensures ktbl.fn.Keys == old(ktbl.fn.Keys) + Regs(o.dest)
  {
    ghost var g, k, all := gtbl.fn, ktbl.fn, ops + [o];
    AddOperandsExcl(gtbl, ktbl, one, o.pfunc, o.src);
    AddOperandsExcl(ktbl, gtbl, one, o.pfunc, o.dest);
    assert all[..|ops|] == ops;
    forall r, v
      ensures v in gtbl.At(r) <==> v in one && FirstAccess(all, v, r) == Use
      ensures v in ktbl.At(r) <==> v in one && FirstAccess(all, v, r) == Def
    {
      assert ExtendedAt(g, gtbl.fn, k, one, o.pfunc, o.src, r, v);
      assert ExtendedAt(k, ktbl.fn, gtbl.fn, one, o.pfunc, o.dest, r, v);
    }
  }

  lemma IsDestSnoc(ops: seq<Oper>, i: nat)
    requires i < |ops|
    ensures forall r :: IsDest(ops[..i + 1], r) <==> IsDest(ops[..i], r) || r in Regs(ops[i].dest)
  {
  }

  method KillSet(one: Func, b: Block, ktbl: FuncTable, a: Arc) returns (k: set<int>)
    requires a.op.Some? ==> a.op.value < |b.ops|
    requires a.pfunc <= one && ktbl.Bounded(one)
    requires TableIs(one, ktbl, UpTo(b, a), Def)
    requires forall r :: r in ktbl.fn <==> IsDest(UpTo(b, a), r)
    ensures IsKillSet(b, a, k)
  {
    k := GenSetSup(ktbl, a.pfunc);
    forall r
      ensures r in k <==> Kills(b, a, r)
    {
      if r in ktbl.fn {
        assert ktbl.fn[r] == ktbl.At(r);
      }
    }
  }

  /** Runs the exit cursor over the exits taken by operation i. */
  method KillSetsAt(one: Func, nodes: nat, b: Block, ktbl: FuncTable, i: nat, done: seq<set<int>>)
    returns (ks: seq<set<int>>)
    requires ValidBlock(one, nodes, b) && i < |b.ops| && ktbl.Bounded(one)
    requires TableIs(one, ktbl, b.ops[..i + 1], Def)
    requires forall r :: r in ktbl.fn <==> IsDest(b.ops[..i + 1], r)
    requires CursorAt(b, done, i)
    ensures CursorAt(b, ks, i + 1)
  {
    hide Kills, FirstAccess;
    ks := done;
    while |ks| < |b.exits| && b.exits[|ks|].op == Some(i)
      invariant CursorAt(b, ks, i)
      decreases |b.exits| - |ks|
    {
      assert b.exits[|ks|] in b.exits;
      var k := KillSet(one, b, ktbl, b.exits[|ks|]);
      ks := ks + [k];
    }
  }

  /** The exits before the cursor have their kill sets; the rest belong to operation i or later. */
  ghost predicate CursorAt(b: Block, ks: seq<set<int>>, i: nat)
    requires InOpOrder(b.ops, b.exits)
  {
    && |ks| <= |b.exits|
    && (forall j :: 0 <= j < |ks| ==> IsKillSet(b, b.exits[j], ks[j]))
    && (|ks| < |b.exits| && b.exits[|ks|].op.Some? ==> i <= b.exits[|ks|].op.value)
  }

  /** Gen set of a block and kill set of each of its exits, in one forward scan with a cursor
      over the exits. */
  method BuildGkUp(one: Func, nodes: nat, b: Block) returns (g: set<int>, ks: seq<set<int>>)
    requires ValidBlock(one, nodes, b)
    ensures IsGenSet(one, b, g)
    ensures |ks| == |b.exits|
    ensures forall j :: 0 <= j < |ks| ==> IsKillSet(b, b.exits[j], ks[j])
  {
    var gtbl := new FuncTable();
    var ktbl := new FuncTable();
    ks := [];
    for i := 0 to |b.ops|
      invariant gtbl.Bounded(one) && ktbl.Bounded(one)
      invariant TableIs(one, gtbl, b.ops[..i], Use) && TableIs(one, ktbl, b.ops[..i], Def)
      invariant forall r :: r in ktbl.fn <==> IsDest(b.ops[..i], r)
      invariant CursorAt(b, ks, i)
    {
      assert b.ops[i] in b.ops;
      assert b.ops[..i + 1] == b.ops[..i] + [b.ops[i]];
      IsDestSnoc(b.ops, i);
      ScanOper(gtbl, ktbl, one, b.ops[..i], b.ops[i]);
      ks := KillSetsAt(one, nodes, b, ktbl, i, ks);
    }
    assert b.ops[..|b.ops|] == b.ops;
    if |ks| < |b.exits| {                       // the fall-through
      assert b.exits[|ks|] in b.exits;
      var k := KillSet(one, b, ktbl, b.exits[|ks|]);
      ks := ks + [k];
    }
    g := GenSet(one, b, gtbl);
  }

  method GenSet(one: Func, b: Block, gtbl: FuncTable) returns (g: set<int>)
    requires gtbl.Bounded(one) && TableIs(one, gtbl, b.ops, Use)
    ensures IsGenSet(one, b, g)
  {
    g := GenSetIsect(one, gtbl, one);
    forall r
      ensures r in g <==> Gens(one, b, r)
    {
      var f := gtbl.At(r);
      if v :| v in one && FirstAccess(b.ops, v, r) == Use {
        assert v in f && v in f * one;
      }
      if r in g {
        var v := Member(f * one);
        assert v in f;
      }
    }
  }
}
