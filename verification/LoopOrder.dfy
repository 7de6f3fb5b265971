/** The order in which address prediction visits the loops of a function, inner loops first,
    and the visit itself. */
module LoopOrder {
  import opened Collections
  import opened AddrPred

  datatype LoopInfo = LoopInfo(id: int, nested: set<int>, body: seq<Oper>)

  ghost predicate UniqueIds(loops: seq<LoopInfo>) {
    forall i, j :: 0 <= i < j < |loops| ==> loops[i].id != loops[j].id
  }

  ghost function LoopIds(loops: seq<LoopInfo>): set<int> {
    set i | 0 <= i < |loops| :: loops[i].id
  }

  /** Every nested loop is a loop of the function and ranks below the loop that contains it. */
  ghost predicate Ranked(loops: seq<LoopInfo>, rank: map<int, nat>) {
    && (forall i :: 0 <= i < |loops| ==> loops[i].id in rank)
    && (forall i, n :: 0 <= i < |loops| && n in loops[i].nested ==>
          n in LoopIds(loops) && n in rank && rank[n] < rank[loops[i].id])
  }

  /** The nesting has no cycle and no dangling id. */
  ghost predicate ProperlyNested(loops: seq<LoopInfo>) {
    exists rank :: Ranked(loops, rank)
  }

  ghost predicate Sortable(loops: seq<LoopInfo>) {
    0 !in LoopIds(loops) && ProperlyNested(loops)
  }

  /** An arrangement that cannot be continued. */
  ghost predicate Full(loops: seq<LoopInfo>, ids: seq<int>) {
    InnerFirst(loops, ids) && forall i :: 0 <= i < |loops| ==> !Ready(loops[i], Elements(ids))
  }

  /** Some slot holds a zero when it is looked at: one that was filled with it, or one that could
      not be filled and held it before. */
  ghost predicate ZeroSeen(full: seq<int>, was: seq<int>) {
    0 in full || exists i :: |full| <= i < |was| && was[i] == 0
  }

  predicate Ready(l: LoopInfo, done: set<int>) {
    l.id !in done && l.nested <= done
  }

  /** Distinct loop ids, each after all loops nested in it. */
  ghost predicate InnerFirst(loops: seq<LoopInfo>, ids: seq<int>) {
    && Distinct(ids)
    && (forall i :: 0 <= i < |ids| ==> ids[i] in LoopIds(loops))
    && (forall i, k :: 0 <= i < |ids| && 0 <= k < |loops| && loops[k].id == ids[i] ==>
          forall n :: n in loops[k].nested ==> n in ids[..i])
  }

  lemma LoopIdsSnoc(loops: seq<LoopInfo>, l: LoopInfo)
    ensures LoopIds(loops + [l]) == LoopIds(loops) + {l.id}
  {
    var all := loops + [l];
    assert forall i :: 0 <= i < |loops| ==> all[i] == loops[i];
    assert all[|loops|] == l;
  }

  lemma {:induction false} LoopIdsSize(loops: seq<LoopInfo>)
    requires UniqueIds(loops)
    ensures |LoopIds(loops)| == |loops|
  {
    hide LoopIds;
    if loops == [] {
      NoLoopIds();
    } else {
      var n := |loops| - 1;
      LoopIdsSize(loops[..n]);
      LoopIdsSnoc(loops[..n], loops[n]);
      assert loops == loops[..n] + [loops[n]];
      LastIdIsNew(loops);
    }
  }

  lemma NoLoopIds()
    ensures LoopIds([]) == {}
  {
  }

  lemma LastIdIsNew(loops: seq<LoopInfo>)
    requires UniqueIds(loops) && loops != []
    ensures loops[|loops| - 1].id !in LoopIds(loops[..|loops| - 1])
  {
  }

  /** While fewer loops are done than there are, some loop is not. */
  lemma Undone(loops: seq<LoopInfo>, done: set<int>) returns (k: nat)
    requires UniqueIds(loops) && |done| < |loops|
    ensures k < |loops| && loops[k].id !in done
  {
    LoopIdsSize(loops);
    if LoopIds(loops) <= done {
      SubsetSize(LoopIds(loops), done);
    }
    var id := Outside(LoopIds(loops), done);
    k :| 0 <= k < |loops| && loops[k].id == id;
  }

  /** Below an undone loop of a proper nesting there is a ready one. */
  lemma {:induction false} SomeReady(loops: seq<LoopInfo>, rank: map<int, nat>, done: set<int>, k: nat) returns (j: nat)
    requires Ranked(loops, rank) && k < |loops| && loops[k].id !in done
    ensures j < |loops| && Ready(loops[j], done)
    decreases rank[loops[k].id]
  {
    if loops[k].nested <= done {
      j := k;
    } else {
      var n := Outside(loops[k].nested, done);
      assert n in LoopIds(loops);
      var m :| 0 <= m < |loops| && loops[m].id == n;
      j := SomeReady(loops, rank, done, m);
    }
  }

  lemma StuckMeansCyclic(loops: seq<LoopInfo>, done: set<int>)
    requires UniqueIds(loops) && |done| < |loops|
    requires forall i :: 0 <= i < |loops| ==> !Ready(loops[i], done)
    ensures !ProperlyNested(loops)
  {
    hide Ranked;
    if rank :| Ranked(loops, rank) {
      var k := Undone(loops, done);
      var j := SomeReady(loops, rank, done, k);
      assert false;
    }
  }

  ghost function Elements(ids: seq<int>): set<int> {
    set x | x in ids
  }

  lemma {:induction false} ElementsSize(ids: seq<int>)
    requires Distinct(ids)
    ensures |Elements(ids)| == |ids|
  {
    if ids != [] {
      var n := |ids| - 1;
      ElementsSize(ids[..n]);
      assert ids == ids[..n] + [ids[n]];
      assert Elements(ids) == Elements(ids[..n]) + {ids[n]};
    }
  }

  /** An inner-first arrangement of as many ids as there are loops holds every loop. */
  lemma AllPlaced(loops: seq<LoopInfo>, ids: seq<int>)
    requires UniqueIds(loops) && InnerFirst(loops, ids) && |ids| == |loops|
    ensures Elements(ids) == LoopIds(loops)
  {
    LoopIdsSize(loops);
    ElementsSize(ids);
    assert Elements(ids) <= LoopIds(loops);
    if Elements(ids) != LoopIds(loops) {
      var x := Outside(LoopIds(loops), Elements(ids));
      Shrinks(Elements(ids), LoopIds(loops), x);
    }
  }

  lemma IdOf(loops: seq<LoopInfo>, k: nat)
    requires k < |loops|
    ensures loops[k].id in LoopIds(loops)
  {
  }

  lemma NoZeroId(loops: seq<LoopInfo>, ids: seq<int>)
    requires UniqueIds(loops) && InnerFirst(loops, ids) && |ids| == |loops|
    requires forall i :: 0 <= i < |ids| ==> ids[i] != 0
    ensures 0 !in LoopIds(loops)
  {
    AllPlaced(loops, ids);
  }

  ghost function PositionOf(ids: seq<int>, x: int): (i: nat)
    requires x in ids
    ensures i < |ids| && ids[i] == x
  {
    if ids[0] == x then 0 else 1 + PositionOf(ids[1..], x)
  }

  /** The positions of a complete inner-first arrangement rank the nesting. */
  lemma ArrangedMeansNested(loops: seq<LoopInfo>, ids: seq<int>)
    requires UniqueIds(loops) && InnerFirst(loops, ids) && |ids| == |loops|
    ensures ProperlyNested(loops)
  {
    AllPlaced(loops, ids);
    var rank := map x | x in Elements(ids) :: PositionOf(ids, x);
    forall k | 0 <= k < |loops|
      ensures loops[k].id in rank
    {
      assert loops[k].id in LoopIds(loops);
    }
    forall k, n | 0 <= k < |loops| && n in loops[k].nested
      ensures n in LoopIds(loops) && n in rank && rank[n] < rank[loops[k].id]
    {
      var i := PositionOf(ids, loops[k].id);
      assert n in ids[..i];
      var j :| 0 <= j < i && ids[j] == n;
      assert n in Elements(ids);
      assert PositionOf(ids, n) == j;
    }
    assert Ranked(loops, rank);
  }

  lemma PlaceReady(loops: seq<LoopInfo>, ids: seq<int>, k: nat)
    requires UniqueIds(loops) && InnerFirst(loops, ids) && k < |loops| && Ready(loops[k], Elements(ids))
    ensures InnerFirst(loops, ids + [loops[k].id])
    ensures Elements(ids + [loops[k].id]) == Elements(ids) + {loops[k].id}
  {
    var all := ids + [loops[k].id];
    forall i | 0 <= i < |ids|
      ensures all[i] == ids[i] && all[..i] == ids[..i]
    {
    }
    assert all[..|ids|] == ids;
    assert loops[k].id in LoopIds(loops);
    forall i, m, n | 0 <= i < |all| && 0 <= m < |loops| && loops[m].id == all[i] && n in loops[m].nested
      ensures n in all[..i]
    {
      if i == |ids| {
        assert m == k && n in Elements(ids);
      }
    }
  }

  /** Whatever was placed lies within every full arrangement. */
  lemma {:induction false} WithinFull(loops: seq<LoopInfo>, ids: seq<int>, full: seq<int>)
    requires InnerFirst(loops, ids) && Full(loops, full)
    ensures Elements(ids) <= Elements(full)
    decreases |ids|
  {
    if ids != [] {
      var n := |ids| - 1;
      var before := ids[..n];
      assert InnerFirst(loops, before) by {
        assert forall i :: 0 <= i < n ==> before[i] == ids[i] && before[..i] == ids[..i];
      }
      WithinFull(loops, before, full);
      assert ids[n] in LoopIds(loops);
      var k :| 0 <= k < |loops| && loops[k].id == ids[n];
      assert forall x :: x in loops[k].nested ==> x in Elements(before);
      assert !Ready(loops[k], Elements(full));
    }
  }

  /** All full arrangements have the same loops. */
  lemma SameFull(loops: seq<LoopInfo>, a: seq<int>, b: seq<int>)
    requires Full(loops, a) && Full(loops, b)
    ensures Elements(a) == Elements(b) && |a| == |b| && (0 in a <==> 0 in b)
  {
    WithinFull(loops, a, b);
    WithinFull(loops, b, a);
    ElementsSize(a);
    ElementsSize(b);
    assert 0 in a <==> 0 in Elements(a);
    assert 0 in b <==> 0 in Elements(b);
  }

  lemma NoMoreThanLoops(loops: seq<LoopInfo>, ids: seq<int>)
    requires UniqueIds(loops) && InnerFirst(loops, ids)
    ensures |ids| <= |loops|
  {
    LoopIdsSize(loops);
    ElementsSize(ids);
    SubsetSize(Elements(ids), LoopIds(loops));
  }

  /** Every arrangement can be continued to a full one. */
  lemma {:induction false} FullExists(loops: seq<LoopInfo>, ids: seq<int>) returns (full: seq<int>)
    requires UniqueIds(loops) && InnerFirst(loops, ids)
    ensures Full(loops, full)
    decreases |loops| - |ids|
  {
    hide InnerFirst, UniqueIds;
    if k :| 0 <= k < |loops| && Ready(loops[k], Elements(ids)) {
      PlaceReady(loops, ids, k);
      NoMoreThanLoops(loops, ids + [loops[k].id]);
      full := FullExists(loops, ids + [loops[k].id]);
    } else {
      full := ids;
    }
  }

  /** A complete arrangement is full. */
  lemma CompleteIsFull(loops: seq<LoopInfo>, ids: seq<int>)
    requires UniqueIds(loops) && InnerFirst(loops, ids) && |ids| == |loops|
    ensures Full(loops, ids)
  {
    AllPlaced(loops, ids);
    forall i | 0 <= i < |loops|
      ensures !Ready(loops[i], Elements(ids))
    {
      IdOf(loops, i);
    }
  }

  /** A zero was met: every full arrangement sees it. */
  lemma ZeroMet(loops: seq<LoopInfo>, ids: seq<int>, was: seq<int>, i: nat)
    requires InnerFirst(loops, ids) && i < |was|
    requires 0 in ids || (Full(loops, ids) && |ids| <= i && was[i] == 0)
    ensures forall full :: Full(loops, full) ==> ZeroSeen(full, was)
  {
    forall full | Full(loops, full)
      ensures ZeroSeen(full, was)
    {
      if 0 in ids {
        WithinFull(loops, ids, full);
        assert 0 in Elements(ids);
      } else {
        SameFull(loops, ids, full);
      }
    }
  }

  /** No zero was met: no full arrangement sees one. */
  lemma NoZeroMet(loops: seq<LoopInfo>, ids: seq<int>, was: seq<int>)
    requires Full(loops, ids) && 0 !in ids && forall i :: |ids| <= i < |was| ==> was[i] != 0
    ensures forall full :: Full(loops, full) ==> !ZeroSeen(full, was)
  {
    forall full | Full(loops, full)
      ensures !ZeroSeen(full, was)
    {
      SameFull(loops, ids, full);
    }
  }

  /** The first loop that is not done and whose nested loops all are. */
  method FirstReady(loops: seq<LoopInfo>, done: set<int>) returns (k: nat)
    ensures k <= |loops|
    ensures k < |loops| ==> Ready(loops[k], done)
    ensures forall i :: 0 <= i < k ==> !Ready(loops[i], done)
  {
    k := 0;
    while k < |loops| && !Ready(loops[k], done)
      invariant k <= |loops|
      invariant forall i :: 0 <= i < k ==> !Ready(loops[i], done)
    {
      k := k + 1;
    }
  }

  /** Fills the array inner loops first.  The array comes uninitialised from the allocator; a
      slot for which no loop is ready keeps what it held, and only a zero in it is noticed. */
  method SortLoops(loops: seq<LoopInfo>, order: array<int>) returns (punted: bool, ghost placed: nat)
    requires UniqueIds(loops) && order.Length == |loops|
    modifies order
    ensures punted ==> 0 in LoopIds(loops) || !ProperlyNested(loops)
    ensures !punted ==>
              && placed <= |loops| && InnerFirst(loops, order[..placed])
              && (forall i :: placed <= i < |loops| ==> order[i] == old(order[i]))
              && (forall i :: 0 <= i < |loops| ==> order[i] != 0)
              && (placed == |loops| <==> ProperlyNested(loops))
    ensures Sortable(loops) ==> !punted && InnerFirst(loops, order[..])
    ensures forall full :: Full(loops, full) ==> (punted <==> ZeroSeen(full, old(order[..])))
    ensures (forall i :: 0 <= i < |loops| ==> old(order[i]) == 0) ==> (punted <==> !Sortable(loops))
    ensures (forall i :: 0 <= i < |loops| ==> old(order[i]) != 0) && 0 !in LoopIds(loops) ==> !punted
  {
    hide ProperlyNested, InnerFirst, LoopIds, UniqueIds, ZeroSeen, Elements, Sortable;
    ghost var was := order[..];
    punted, placed := false, 0;
    var done: set<int> := {};
    NothingPlaced(loops);
    assert order[..0] == [];
    var n := order.Length;
    for i := 0 to n
      invariant placed <= i && (placed < i ==> forall k :: 0 <= k < |loops| ==> !Ready(loops[k], done))
      invariant InnerFirst(loops, order[..placed]) && done == Elements(order[..placed]) && |done| == placed
      invariant forall j :: placed <= j < n ==> order[j] == old(order[j])
      invariant forall j :: 0 <= j < i ==> order[j] != 0
    {
      var k := FirstReady(loops, done);
      if k < |loops| {
        ghost var ids := order[..placed];
        PlaceReady(loops, ids, k);
        order[i] := loops[k].id;
        done := done + {loops[k].id};
        placed := placed + 1;
        assert order[..placed] == ids + [loops[k].id];
      }
      if order[i] == 0 {
        ghost var ids := order[..placed];
        if k < |loops| {
          IdOf(loops, k);
          assert ids[i] == 0;
        } else {
          StuckMeansCyclic(loops, done);
          assert was[i] == 0;
        }
        ZeroMet(loops, ids, was, i);
        SortableParts(loops);
        punted := true;
        return;
      }
    }
    ghost var ids := order[..placed];
    if placed == n {
      CompleteIsFull(loops, ids);
      ArrangedMeansNested(loops, ids);
      assert order[..] == ids;
      NoZeroId(loops, ids);
    } else {
      assert old(order[placed]) == order[placed] != 0;
      StuckMeansCyclic(loops, done);
    }
    assert forall i :: placed <= i < n ==> was[i] == order[i];
    NoZeroMet(loops, ids, was);
    SortableParts(loops);
  }

  lemma SortableParts(loops: seq<LoopInfo>)
    ensures Sortable(loops) <==> 0 !in LoopIds(loops) && ProperlyNested(loops)
  {
  }

  lemma NothingPlaced(loops: seq<LoopInfo>)
    ensures InnerFirst(loops, []) && Elements([]) == {}
  {
  }

  // ----- the visit -----

  ghost function AllOps(loops: seq<LoopInfo>): set<Oper> {
    set k, i | 0 <= k < |loops| && 0 <= i < |loops[k].body| :: loops[k].body[i]
  }

  function FindLoop(loops: seq<LoopInfo>, id: int): (k: nat)
    ensures k <= |loops|
    ensures k < |loops| ==> loops[k].id == id
    ensures forall i :: 0 <= i < k ==> loops[i].id != id
  {
    if loops == [] || loops[0].id == id then 0 else 1 + FindLoop(loops[1..], id)
  }

  /** The loop and base register that decided the mark of a load. */
  datatype Verdict = Verdict(loop: nat, base: int)

  /** Loop k holds op and is visited before every other loop that does. */
  ghost predicate FirstVisited(loops: seq<LoopInfo>, ids: seq<int>, k: nat, op: Oper) {
    && k < |loops| && op in loops[k].body
    && exists i :: 0 <= i < |ids| && ids[i] == loops[k].id && NoneBefore(loops, ids[..i], op)
  }

  ghost predicate NoneBefore(loops: seq<LoopInfo>, ids: seq<int>, op: Oper) {
    forall m :: 0 <= m < |loops| && loops[m].id in ids ==> op !in loops[m].body
  }

  /** op lies in the loop and in none nested in it. */
  ghost predicate Innermost(loops: seq<LoopInfo>, k: nat, op: Oper) {
    && k < |loops| && op in loops[k].body
    && forall m :: 0 <= m < |loops| && loops[m].id in loops[k].nested ==> op !in loops[m].body
  }

  type Attrs = map<Oper, seq<Attr>>

  /** The attributes of every op of the loops. */
  ghost function Snapshot(loops: seq<LoopInfo>): (attrs: Attrs)
    reads AllOps(loops)
    ensures attrs.Keys == AllOps(loops)
  {
    map op | op in AllOps(loops) :: op.attrs
  }

  /** The unmarked loads. */
  ghost function Open(attrs: Attrs): set<Oper> {
    set op | op in attrs && op.load
             && !(SetupImpliedReg in attrs[op] || DontPredict in attrs[op] || Predict in attrs[op])
  }

  /** Each verdict is on an open load, by the loop around it that was visited first, and added one
      mark; nothing else changed. */
  ghost predicate Decided(loops: seq<LoopInfo>, ids: seq<int>, was: Attrs, now: Attrs, verdicts: map<Oper, Verdict>) {
    && was.Keys == now.Keys == AllOps(loops) && verdicts.Keys <= Open(was)
    && (forall op :: op in verdicts ==>
          && FirstVisited(loops, ids, verdicts[op].loop, op)
          && now[op] == was[op] + [MarkFor(loops[verdicts[op].loop].body, verdicts[op].base, op)])
    && (forall op :: op in was && op !in verdicts ==> now[op] == was[op])
  }

  /** Every open load of the loops with the given ids has its verdict. */
  ghost predicate Covered(loops: seq<LoopInfo>, ids: seq<int>, was: Attrs, verdicts: map<Oper, Verdict>) {
    forall k, op :: 0 <= k < |loops| && loops[k].id in ids && op in loops[k].body && op in Open(was) ==> op in verdicts
  }

  /** The verdict v on each of the loads todo is added. */
  ghost function Judged(verdicts: map<Oper, Verdict>, todo: set<Oper>, v: Verdict): map<Oper, Verdict> {
    verdicts + map op | op in todo :: v
  }

  lemma JudgedIs(verdicts: map<Oper, Verdict>, todo: set<Oper>, v: Verdict)
    ensures Judged(verdicts, todo, v).Keys == verdicts.Keys + todo
    ensures forall op :: op in todo ==> Judged(verdicts, todo, v)[op] == v
    ensures forall op :: op in verdicts && op !in todo ==> Judged(verdicts, todo, v)[op] == verdicts[op]
  {
  }

  /** The loads whose verdict loop k gave. */
  ghost function DecidedBy(verdicts: map<Oper, Verdict>, k: nat): set<Oper> {
    set op | op in verdicts && verdicts[op].loop == k
  }

  /** The base register of a verdict is the one chosen for its loop among the loads it decides. */
  ghost predicate BasesChosen(loops: seq<LoopInfo>, verdicts: map<Oper, Verdict>) {
    forall op :: op in verdicts ==> BaseChosen(loops, verdicts, verdicts[op])
  }

  ghost predicate BaseChosen(loops: seq<LoopInfo>, verdicts: map<Oper, Verdict>, v: Verdict) {
    v.loop < |loops| && ChosenBase(loops[v.loop].body, DecidedBy(verdicts, v.loop), v.base)
  }

  /** The mark of every verdict is right for its loop and base register. */
  ghost predicate AllRight(loops: seq<LoopInfo>, was: Attrs, now: Attrs, verdicts: map<Oper, Verdict>) {
    forall op :: op in verdicts && op in was && op in now && verdicts[op].loop < |loops| ==>
      MarkedRight(loops[verdicts[op].loop].body, verdicts[op].base, op, was[op], now[op])
  }

  /** The loads that were given mark m. */
  ghost function Given(was: Attrs, now: Attrs, verdicts: map<Oper, Verdict>, m: Attr): set<Oper> {
    set op | op in verdicts && op in was && op in now && now[op] == was[op] + [m]
  }

  /** The counters have risen by the numbers of loads with each mark. */
  ghost predicate Counted(pred: int, early: int, dp: int, was: Attrs, now: Attrs, verdicts: map<Oper, Verdict>) {
    && pred == |Given(was, now, verdicts, Predict)|
    && early == |Given(was, now, verdicts, SetupImpliedReg)|
    && dp == |Given(was, now, verdicts, DontPredict)|
  }

  ghost predicate Adds(body: seq<Oper>, base: int, todo: set<Oper>, before: Attrs, after: Attrs) {
    && before.Keys == after.Keys
    && forall op :: op in before ==> after[op] == before[op] + if op in todo then [MarkFor(body, base, op)] else []
  }

  /** The ops as a value known to be allocated. */
  lemma OpsOf(loops: seq<LoopInfo>) returns (ops: set<Oper>)
    ensures ops == AllOps(loops)
  {
    ops := AllOps(loops);
  }

  lemma BodyOps(loops: seq<LoopInfo>, k: nat)
    requires k < |loops|
    ensures forall op :: op in loops[k].body ==> op in AllOps(loops)
  {
  }

  lemma OpenIsThere(attrs: Attrs, op: Oper)
    requires op in Open(attrs)
    ensures op in attrs
  {
  }

  /** A load that is open now was open from the start and has no verdict. */
  lemma StillOpen(loops: seq<LoopInfo>, ids: seq<int>, was: Attrs, now: Attrs, verdicts: map<Oper, Verdict>, op: Oper)
    requires Decided(loops, ids, was, now, verdicts) && op in Open(now)
    ensures op in Open(was) && op !in verdicts && op in was
  {
    hide AllOps, FirstVisited;
  }

  /** A load that is still open lies in none of the loops visited so far. */
  lemma FirstHere(loops: seq<LoopInfo>, k: nat, ids: seq<int>, was: Attrs, verdicts: map<Oper, Verdict>, op: Oper)
    requires k < |loops| && Covered(loops, ids, was, verdicts)
    requires op in loops[k].body && op in Open(was) && op !in verdicts
    ensures FirstVisited(loops, ids + [loops[k].id], k, op)
  {
    var all := ids + [loops[k].id];
    assert all[..|ids|] == ids && all[|ids|] == loops[k].id;
    assert NoneBefore(loops, all[..|ids|], op);
  }

  lemma StaysFirst(loops: seq<LoopInfo>, ids: seq<int>, id: int, k: nat, op: Oper)
    requires FirstVisited(loops, ids, k, op)
    ensures FirstVisited(loops, ids + [id], k, op)
  {
    var i :| 0 <= i < |ids| && ids[i] == loops[k].id && NoneBefore(loops, ids[..i], op);
    var all := ids + [id];
    assert all[i] == ids[i] && all[..i] == ids[..i];
    assert NoneBefore(loops, all[..i], op);
  }

  lemma VisitStep(loops: seq<LoopInfo>, k: nat, ids: seq<int>, was: Attrs, before: Attrs, after: Attrs,
                  verdicts: map<Oper, Verdict>, base: int, todo: set<Oper>)
    requires k < |loops| && Decided(loops, ids, was, before, verdicts) && Covered(loops, ids, was, verdicts)
    requires todo == set op | op in loops[k].body && op in Open(before)
    requires Adds(loops[k].body, base, todo, before, after)
    ensures todo !! verdicts.Keys
    ensures Decided(loops, ids + [loops[k].id], was, after, Judged(verdicts, todo, Verdict(k, base)))
  {
    hide MarkFor, AllOps, Open, FirstVisited, Judged;
    JudgedIs(verdicts, todo, Verdict(k, base));
    forall op | op in todo
      ensures op !in verdicts && op in Open(was) && op in was && FirstVisited(loops, ids + [loops[k].id], k, op)
    {
      StillOpen(loops, ids, was, before, verdicts, op);
      FirstHere(loops, k, ids, was, verdicts, op);
    }
    forall op | op in verdicts
      ensures op in was && FirstVisited(loops, ids + [loops[k].id], verdicts[op].loop, op)
    {
      assert op in Open(was);
      OpenIsThere(was, op);
      StaysFirst(loops, ids, loops[k].id, verdicts[op].loop, op);
    }
  }

  lemma CoverStep(loops: seq<LoopInfo>, k: nat, ids: seq<int>, was: Attrs, before: Attrs,
                  verdicts: map<Oper, Verdict>, base: int, todo: set<Oper>)
    requires UniqueIds(loops) && k < |loops|
    requires Decided(loops, ids, was, before, verdicts) && Covered(loops, ids, was, verdicts)
    requires todo == set op | op in loops[k].body && op in Open(before)
    ensures Covered(loops, ids + [loops[k].id], was, Judged(verdicts, todo, Verdict(k, base)))
  {
    hide MarkFor, AllOps, FirstVisited;
  }

  /** A loop that still decides a load was not visited before, so it has decided none. */
  lemma NotVisited(loops: seq<LoopInfo>, k: nat, ids: seq<int>, was: Attrs, before: Attrs,
                   verdicts: map<Oper, Verdict>, op: Oper)
    requires k < |loops| && Decided(loops, ids, was, before, verdicts) && Covered(loops, ids, was, verdicts)
    requires op in loops[k].body && op in Open(before)
    ensures DecidedBy(verdicts, k) == {}
  {
    hide AllOps, Open;
    StillOpen(loops, ids, was, before, verdicts, op);
    assert loops[k].id !in ids;
    forall x | x in verdicts
      ensures verdicts[x].loop != k
    {
      VisitedIsListed(loops, ids, verdicts[x].loop, x);
    }
  }

  lemma VisitedIsListed(loops: seq<LoopInfo>, ids: seq<int>, k: nat, op: Oper)
    requires FirstVisited(loops, ids, k, op)
    ensures loops[k].id in ids
  {
  }

  lemma BaseStep(loops: seq<LoopInfo>, k: nat, ids: seq<int>, was: Attrs, before: Attrs,
                 verdicts: map<Oper, Verdict>, base: int, todo: set<Oper>)
    requires k < |loops| && Decided(loops, ids, was, before, verdicts) && Covered(loops, ids, was, verdicts)
    requires todo == set op | op in loops[k].body && op in Open(before)
    requires BasesChosen(loops, verdicts) && ChosenBase(loops[k].body, todo, base)
    ensures BasesChosen(loops, Judged(verdicts, todo, Verdict(k, base)))
  {
    hide AllOps, Open, ChosenBase, Decided, Covered;
    var more := Judged(verdicts, todo, Verdict(k, base));
    if op :| op in todo {
      NotVisited(loops, k, ids, was, before, verdicts, op);
      forall x | x in todo
        ensures x !in verdicts
      {
        StillOpen(loops, ids, was, before, verdicts, x);
      }
      DecidedNow(verdicts, todo, k, base);
      forall x | x in more
        ensures BaseChosen(loops, more, more[x])
      {
        if x !in todo {
          assert BaseChosen(loops, verdicts, verdicts[x]);
          assert x in DecidedBy(verdicts, verdicts[x].loop);
        }
      }
    } else {
      assert more == verdicts;
    }
  }

  /** A loop that had decided nothing decides the new loads, and no other loop decides more. */
  lemma DecidedNow(verdicts: map<Oper, Verdict>, todo: set<Oper>, k: nat, base: int)
    requires DecidedBy(verdicts, k) == {} && todo !! verdicts.Keys
    ensures var more := Judged(verdicts, todo, Verdict(k, base));
      && DecidedBy(more, k) == todo
      && forall l :: l != k ==> DecidedBy(more, l) == DecidedBy(verdicts, l)
  {
    var more := Judged(verdicts, todo, Verdict(k, base));
    forall x
      ensures x in DecidedBy(more, k) <==> x in todo
    {
      assert x in verdicts && verdicts[x].loop == k ==> x in DecidedBy(verdicts, k);
    }
  }

  /** The loads with a given mark grow by those of this visit. */
  lemma GivenStep(loops: seq<LoopInfo>, k: nat, ids: seq<int>, was: Attrs, before: Attrs, after: Attrs,
                  verdicts: map<Oper, Verdict>, base: int, todo: set<Oper>, m: Attr)
    requires k < |loops| && Decided(loops, ids, was, before, verdicts)
    requires todo == set op | op in loops[k].body && op in Open(before)
    requires Adds(loops[k].body, base, todo, before, after)
    ensures var more := Judged(verdicts, todo, Verdict(k, base));
      |Given(was, after, more, m)| ==
      |Given(was, before, verdicts, m)| + |Chosen(loops[k].body, todo, loops[k].body, base, m)|
  {
    hide AllOps, Open, MarkFor, FirstVisited, Judged;
    var body, more := loops[k].body, Judged(verdicts, todo, Verdict(k, base));
    JudgedIs(verdicts, todo, Verdict(k, base));
    forall op | op in todo
      ensures op !in verdicts && op in was && before[op] == was[op]
    {
      StillOpen(loops, ids, was, before, verdicts, op);
    }
    forall op | op in verdicts
      ensures op in was
    {
      assert op in Open(was);
      OpenIsThere(was, op);
    }
    forall op | op in todo
      ensures after[op] == was[op] + [m] <==> MarkFor(body, base, op) == m
    {
      OneMark(was[op], MarkFor(body, base, op), m);
    }
    assert forall op :: op in more ==> op in more.Keys;
    SplitGiven(was, before, after, verdicts, more, todo, Chosen(body, todo, body, base, m), m);
  }

  /** The marked loads are those marked before and the ones of the new loads with that mark. */
  lemma SplitGiven(was: Attrs, before: Attrs, after: Attrs, verdicts: map<Oper, Verdict>, more: map<Oper, Verdict>,
                   todo: set<Oper>, chosen: set<Oper>, m: Attr)
    requires was.Keys == before.Keys == after.Keys && forall op :: op in more <==> op in verdicts || op in todo
    requires forall op :: op in more ==> op in was
    requires forall op :: op in verdicts ==> op !in todo && after[op] == before[op]
    requires forall op :: op in chosen <==> op in todo && after[op] == was[op] + [m]
    ensures |Given(was, after, more, m)| == |Given(was, before, verdicts, m)| + |chosen|
  {
    var given := Given(was, before, verdicts, m);
    assert given !! chosen;
    assert Given(was, after, more, m) == given + chosen;
  }

  lemma OneMark(attrs: seq<Attr>, a: Attr, b: Attr)
    ensures attrs + [a] == attrs + [b] <==> a == b
  {
    assert (attrs + [a])[|attrs|] == a && (attrs + [b])[|attrs|] == b;
  }

  lemma CountedStep(loops: seq<LoopInfo>, k: nat, ids: seq<int>, was: Attrs, before: Attrs, after: Attrs,
                    verdicts: map<Oper, Verdict>, base: int, todo: set<Oper>, pred: int, early: int, dp: int)
    requires k < |loops| && Decided(loops, ids, was, before, verdicts)
    requires todo == set op | op in loops[k].body && op in Open(before)
    requires Adds(loops[k].body, base, todo, before, after)
    requires Counted(pred, early, dp, was, before, verdicts)
    ensures Counted(pred + |PredictedLoads(todo, loops[k].body, base)|, early + |EarlyLoads(todo, base)|,
                    dp + |DependentLoads(todo, loops[k].body, base)|,
                    was, after, Judged(verdicts, todo, Verdict(k, base)))
  {
    hide AllOps, Open, MarkFor, Decided, Adds, Given, Chosen, Judged, PredictedLoads, EarlyLoads, DependentLoads;
    ChosenAre(loops[k].body, todo, base);
    GivenStep(loops, k, ids, was, before, after, verdicts, base, todo, Predict);
    GivenStep(loops, k, ids, was, before, after, verdicts, base, todo, SetupImpliedReg);
    GivenStep(loops, k, ids, was, before, after, verdicts, base, todo, DontPredict);
  }

  lemma DecidedIsRight(loops: seq<LoopInfo>, ids: seq<int>, was: Attrs, now: Attrs, verdicts: map<Oper, Verdict>)
    requires Decided(loops, ids, was, now, verdicts)
    ensures AllRight(loops, was, now, verdicts)
  {
    hide AllOps, MarkFor, FirstVisited, MarkedRight, Open;
    forall op | op in verdicts && op in was && verdicts[op].loop < |loops|
      ensures MarkedRight(loops[verdicts[op].loop].body, verdicts[op].base, op, was[op], now[op])
    {
      MarkIsRight(loops[verdicts[op].loop].body, verdicts[op].base, op, was[op]);
    }
  }

  lemma CountMore(verdicts: map<Oper, Verdict>, todo: set<Oper>, v: Verdict)
    requires todo !! verdicts.Keys
    ensures |Judged(verdicts, todo, v)| == |verdicts| + |todo|
  {
    var more := Judged(verdicts, todo, v);
    assert more.Keys == verdicts.Keys + todo;
    assert |more.Keys| == |more|;
  }

  lemma TodoIsOpen(loops: seq<LoopInfo>, k: nat)
    requires k < |loops|
    ensures Todo(loops[k].body) == set op | op in loops[k].body && op in Open(Snapshot(loops))
  {
    BodyOps(loops, k);
  }

  lemma SnapshotHolds(loops: seq<LoopInfo>)
    ensures forall op :: op in AllOps(loops) ==> Snapshot(loops)[op] == op.attrs
  {
  }

  lemma MarkingAdds(loops: seq<LoopInfo>, k: nat, base: int, todo: set<Oper>, before: Attrs)
    requires k < |loops| && before.Keys == AllOps(loops) && forall op :: op in todo ==> op in loops[k].body
    requires forall op :: op in loops[k].body && op in before ==>
               op.attrs == before[op] + if op in todo then [MarkFor(loops[k].body, base, op)] else []
    requires forall op :: op in before && op !in loops[k].body ==> op.attrs == before[op]
    ensures Adds(loops[k].body, base, todo, before, Snapshot(loops))
  {
    hide MarkFor, AllOps;
  }

  /** Where the visits stand: what has been decided, by which loops and bases, and counted. */
  ghost predicate Progress(loops: seq<LoopInfo>, ids: seq<int>, was: Attrs, now: Attrs, verdicts: map<Oper, Verdict>,
                           pred: int, early: int, dp: int) {
    && Decided(loops, ids, was, now, verdicts) && Covered(loops, ids, was, verdicts)
    && BasesChosen(loops, verdicts) && Counted(pred, early, dp, was, now, verdicts)
  }

  lemma VisitDone(loops: seq<LoopInfo>, k: nat, ids: seq<int>, was: Attrs, before: Attrs, after: Attrs,
                  verdicts: map<Oper, Verdict>, base: int, todo: set<Oper>, pred: int, early: int, dp: int,
                  pred': int, early': int, dp': int)
    requires UniqueIds(loops) && k < |loops| && Progress(loops, ids, was, before, verdicts, pred, early, dp)
    requires todo == set op | op in loops[k].body && op in Open(before)
    requires Adds(loops[k].body, base, todo, before, after) && ChosenBase(loops[k].body, todo, base)
    requires pred' == pred + |PredictedLoads(todo, loops[k].body, base)| && early' == early + |EarlyLoads(todo, base)|
    requires dp' == dp + |DependentLoads(todo, loops[k].body, base)|
    ensures var more := Judged(verdicts, todo, Verdict(k, base));
      && Progress(loops, ids + [loops[k].id], was, after, more, pred', early', dp')
      && |more| == |verdicts| + |todo|
  {
    hide Decided, Covered, BasesChosen, Counted, Adds, ChosenBase, Open, PredictedLoads, EarlyLoads, DependentLoads;
    hide UniqueIds, Judged;
    VisitStep(loops, k, ids, was, before, after, verdicts, base, todo);
    CoverStep(loops, k, ids, was, before, verdicts, base, todo);
    BaseStep(loops, k, ids, was, before, verdicts, base, todo);
    CountedStep(loops, k, ids, was, before, after, verdicts, base, todo, pred, early, dp);
    CountMore(verdicts, todo, Verdict(k, base));
  }

  /** One visit marks the loads of the loop that no earlier visit has marked.  The counters started
      at p, e and d. */
  method VisitLoop(loops: seq<LoopInfo>, k: nat, counters: Counters, ghost ids: seq<int>, ghost was: Attrs,
                   ghost verdicts: map<Oper, Verdict>, ghost p: int, ghost e: int, ghost d: int)
    returns (ghost more: map<Oper, Verdict>)
    requires UniqueIds(loops) && k < |loops| && Distinct(loops[k].body)
    requires was.Keys == AllOps(loops)
    requires Progress(loops, ids, was, Snapshot(loops), verdicts,
                      counters.pred - p, counters.early - e, counters.dp - d)
    modifies counters, AllOps(loops)
    ensures Progress(loops, ids + [loops[k].id], was, Snapshot(loops), more,
                     counters.pred - p, counters.early - e, counters.dp - d)
    ensures counters.Sum() - |more| == old(counters.Sum()) - |verdicts|
  {
    hide MarkFor, ChosenBase, AllOps, UniqueIds, Snapshot, Open, Adds, Progress, Judged;
    hide MarkedRight, PredictedLoads, EarlyLoads, DependentLoads;
    var body := loops[k].body;
    BodyOps(loops, k);
    TodoIsOpen(loops, k);
    SnapshotHolds(loops);
    ghost var todo, before := Todo(body), Snapshot(loops);
    ghost var pred, early, dp := counters.pred - p, counters.early - e, counters.dp - d;
    ghost var all := OpsOf(loops);
    var base := counters.CheckLoop(body);
    assert forall op :: op in all && op !in body ==> op.attrs == old(op.attrs);
    MarkingAdds(loops, k, base, todo, before);
    more := Judged(verdicts, todo, Verdict(k, base));
    VisitDone(loops, k, ids, was, before, Snapshot(loops), verdicts, base, todo, pred, early, dp,
              counters.pred - p, counters.early - e, counters.dp - d);
  }

  /** The loop over the sorted array: it stops at the first id that names no loop. */
  method VisitLoops(loops: seq<LoopInfo>, order: array<int>, counters: Counters)
    returns (ok: bool, ghost visited: nat, ghost verdicts: map<Oper, Verdict>)
    requires UniqueIds(loops) && order.Length == |loops|
    requires forall k :: 0 <= k < |loops| ==> Distinct(loops[k].body)
    requires Sortable(loops) ==> InnerFirst(loops, order[..])
    modifies counters, AllOps(loops)
    ensures visited <= |loops| && (ok <==> visited == |loops|)
    ensures !ok ==> visited < |loops| && order[visited] !in LoopIds(loops)
    ensures Decided(loops, order[..visited], old(Snapshot(loops)), Snapshot(loops), verdicts)
    ensures Covered(loops, order[..visited], old(Snapshot(loops)), verdicts)
    ensures AllRight(loops, old(Snapshot(loops)), Snapshot(loops), verdicts) && BasesChosen(loops, verdicts)
    ensures Counted(counters.pred - old(counters.pred), counters.early - old(counters.early),
                    counters.dp - old(counters.dp), old(Snapshot(loops)), Snapshot(loops), verdicts)
    ensures counters.Sum() == old(counters.Sum()) + |verdicts|
    ensures Sortable(loops) ==>
              && ok && verdicts.Keys == old(Open(Snapshot(loops)))
              && forall op :: op in verdicts ==> Innermost(loops, verdicts[op].loop, op)
  {
    hide MarkFor, Innermost, AllOps, Sortable, Snapshot, Open, InnerFirst, Progress;
    hide UniqueIds, Elements, LoopIds, Decided, Covered, AllRight, BasesChosen, Counted;
    ghost var was, ids := Snapshot(loops), order[..];
    ghost var p, e, d := counters.pred, counters.early, counters.dp;
    ok, verdicts, visited := true, map[], 0;
    UndecidedYet(loops, was);
    assert ids[..0] == [];
    for i := 0 to order.Length
      invariant ok && order[..] == ids && visited == i
      invariant Progress(loops, ids[..i], was, Snapshot(loops), verdicts,
                         counters.pred - p, counters.early - e, counters.dp - d)
      invariant counters.Sum() == old(counters.Sum()) + |verdicts|
    {
      var k := FindLoop(loops, order[i]);
      if k == |loops| {
        ok := false;
        NotFound(loops, ids, i);
        assert order[..visited] == ids[..i];
        ProgressParts(loops, ids[..i], was, Snapshot(loops), verdicts,
                      counters.pred - p, counters.early - e, counters.dp - d);
        return;
      }
      assert ids[..i + 1] == ids[..i] + [loops[k].id];
      verdicts := VisitLoop(loops, k, counters, ids[..i], was, verdicts, p, e, d);
      visited := visited + 1;
    }
    assert ids[..|ids|] == ids && order[..visited] == ids;
    ProgressParts(loops, ids, was, Snapshot(loops), verdicts,
                  counters.pred - p, counters.early - e, counters.dp - d);
    AllDecided(loops, ids, was, Snapshot(loops), verdicts);
  }

  /** Visits the loops in the order of the array.  On every input each load is marked at most once,
      by the loop around it that is visited first, and a failed run has visited the loops before
      the first id that names no loop.  For proper nestings that loop is an innermost one. */
  method FindLinkedListBase(loops: seq<LoopInfo>, order: array<int>, counters: Counters)
    returns (ok: bool, ghost punted: bool, ghost visited: nat, ghost verdicts: map<Oper, Verdict>)
    requires UniqueIds(loops) && order.Length == |loops|
    requires forall k :: 0 <= k < |loops| ==> Distinct(loops[k].body)
    modifies order, counters, AllOps(loops)
    ensures forall full :: Full(loops, full) ==> (punted <==> ZeroSeen(full, old(order[..])))
    ensures ok <==> !punted && visited == |loops|
    ensures visited <= |loops| && (punted ==> visited == 0)
    ensures !ok && !punted ==> visited < |loops| && order[visited] !in LoopIds(loops)
    ensures Decided(loops, order[..visited], old(Snapshot(loops)), Snapshot(loops), verdicts)
    ensures Covered(loops, order[..visited], old(Snapshot(loops)), verdicts)
    ensures AllRight(loops, old(Snapshot(loops)), Snapshot(loops), verdicts) && BasesChosen(loops, verdicts)
    ensures Counted(counters.pred - old(counters.pred), counters.early - old(counters.early),
                    counters.dp - old(counters.dp), old(Snapshot(loops)), Snapshot(loops), verdicts)
    ensures counters.Sum() == old(counters.Sum()) + |verdicts|
    ensures Sortable(loops) ==>
              && ok && verdicts.Keys == old(Open(Snapshot(loops)))
              && forall op :: op in verdicts ==> Innermost(loops, verdicts[op].loop, op)
  {
    hide MarkFor, Innermost, AllOps, Sortable, Snapshot, Open, InnerFirst, Full, ZeroSeen, Progress;
    hide UniqueIds, Elements, LoopIds, Decided, Covered, AllRight, BasesChosen, Counted;
    ghost var was := Snapshot(loops);
    ghost var all := OpsOf(loops);
    SnapshotHolds(loops);
    verdicts, visited := map[], 0;
    UndecidedYet(loops, was);
    ghost var placed;
    var failed;
    failed, placed := SortLoops(loops, order);
    ok, punted := !failed, failed;
    SnapshotHolds(loops);
    assert forall op :: op in all ==> op.attrs == old(op.attrs);
    assert Snapshot(loops) == was;
    assert order[..0] == [];
    if failed {
      ProgressParts(loops, [], was, was, verdicts, 0, 0, 0);
      return;
    }
    ok, visited, verdicts := VisitLoops(loops, order, counters);
  }

  lemma ProgressParts(loops: seq<LoopInfo>, ids: seq<int>, was: Attrs, now: Attrs, verdicts: map<Oper, Verdict>,
                      pred: int, early: int, dp: int)
    requires Progress(loops, ids, was, now, verdicts, pred, early, dp)
    ensures Decided(loops, ids, was, now, verdicts) && Covered(loops, ids, was, verdicts)
    ensures AllRight(loops, was, now, verdicts) && BasesChosen(loops, verdicts)
    ensures Counted(pred, early, dp, was, now, verdicts)
  {
    hide Decided, Covered, BasesChosen, Counted, AllRight;
    DecidedIsRight(loops, ids, was, now, verdicts);
  }

  /** An id that names no loop is met only when the nesting cannot be sorted. */
  lemma NotFound(loops: seq<LoopInfo>, ids: seq<int>, i: nat)
    requires UniqueIds(loops) && |ids| == |loops| && i < |ids| && FindLoop(loops, ids[i]) == |loops|
    requires Sortable(loops) ==> InnerFirst(loops, ids)
    ensures ids[i] !in LoopIds(loops) && !Sortable(loops)
  {
    hide InnerFirst, Sortable, UniqueIds;
    if Sortable(loops) {
      AllPlaced(loops, ids);
      InElements(ids, i);
    }
  }

  lemma InElements(ids: seq<int>, i: nat)
    requires i < |ids|
    ensures ids[i] in Elements(ids)
  {
  }

  /** In an inner-first order the first loop visited around a load is an innermost one. */
  lemma FirstIsInnermost(loops: seq<LoopInfo>, ids: seq<int>, k: nat, op: Oper)
    requires InnerFirst(loops, ids) && FirstVisited(loops, ids, k, op)
    ensures Innermost(loops, k, op)
  {
    var i :| 0 <= i < |ids| && ids[i] == loops[k].id && NoneBefore(loops, ids[..i], op);
    forall m | 0 <= m < |loops| && loops[m].id in loops[k].nested
      ensures op !in loops[m].body
    {
      assert loops[m].id in ids[..i];
    }
  }

  /** After all visits of a proper nesting every open load has its verdict, by an innermost loop. */
  lemma AllDecided(loops: seq<LoopInfo>, ids: seq<int>, was: Attrs, now: Attrs, verdicts: map<Oper, Verdict>)
    requires UniqueIds(loops) && |ids| == |loops| && (Sortable(loops) ==> InnerFirst(loops, ids))
    requires Decided(loops, ids, was, now, verdicts) && Covered(loops, ids, was, verdicts)
    ensures Sortable(loops) ==>
              verdicts.Keys == Open(was) && forall op :: op in verdicts ==> Innermost(loops, verdicts[op].loop, op)
  {
    hide MarkFor, Innermost, FirstVisited, InnerFirst, Sortable, UniqueIds;
    if Sortable(loops) {
      AllPlaced(loops, ids);
      forall op | op in Open(was)
        ensures op in verdicts
      {
        var k, i :| 0 <= k < |loops| && 0 <= i < |loops[k].body| && loops[k].body[i] == op;
        assert loops[k].id in Elements(ids);
      }
      forall op | op in verdicts
        ensures Innermost(loops, verdicts[op].loop, op)
      {
        FirstIsInnermost(loops, ids, verdicts[op].loop, op);
      }
    }
  }

  lemma UndecidedYet(loops: seq<LoopInfo>, was: Attrs)
    requires was.Keys == AllOps(loops)
    ensures Decided(loops, [], was, was, map[]) && Progress(loops, [], was, was, map[], 0, 0, 0)
  {
  }
}
