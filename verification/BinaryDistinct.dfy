/** Ids in a function that is read: whatever the bytes, no two of its blocks and no two operations
    of one block have the same id. */
module BinaryDistinct {
  import opened Collections
  import opened BinaryCodec
  import opened BinaryOper
  import opened BinaryBody
  import opened BinaryInterning
  import opened BinaryObjects
  import opened BinaryFunction

  /** A walk that ends meets no id twice. */
  lemma {:induction false} WalkIsDistinct(next: Links, start: Option<int>, seen: set<int>)
    ensures var ids := Walk(next, start, seen);
      ids.Some? ==> Distinct(ids.value) && forall i :: 0 <= i < |ids.value| ==> ids.value[i] !in seen
    decreases next.Keys - seen
  {
    if start.Some? && start.value !in seen && start.value in next {
      WalkIsDistinct(next, Some(next[start.value]), seen + {start.value});
    }
  }

  /** Objects are found under their own ids. */
  ghost predicate KeyedById<S(!new)>(opers: map<int, Operation<S>>) {
    forall id :: id in opers ==> opers[id].id == id
  }

  lemma EnteredKeepsId<S(!new)>(m: Machine, k: SlotKind<S>, opers: map<int, Operation<S>>, r: OperRecord<S>)
    requires KeyedById(opers)
    ensures Entered(m, k, opers, r).id == r.id
  {
  }

  lemma {:induction false} EnterOpersKeyed<S(!new)>(m: Machine, k: SlotKind<S>, s: Store<S>, cb: int,
                                                    rs: seq<OperRecord<S>>)
    requires KeyedById(s.opers) && cb in s.cbs
    ensures KeyedById(EnterOpers(m, k, s, cb, rs).opers)
  {
    hide Entered, InsertAfter, FlagsFor, Predicated;
    if rs != [] {
      var n := |rs| - 1;
      EnterOpersKeyed(m, k, s, cb, rs[..n]);
      EnteredKeepsId(m, k, EnterOpers(m, k, s, cb, rs[..n]).opers, rs[n]);
    }
  }

  lemma {:induction false} EnterBlocksKeyed<S(!new)>(m: Machine, k: SlotKind<S>, s: Store<S>, rs: seq<BlockRecord<S>>)
    requires KeyedById(s.opers)
    ensures KeyedById(EnterBlocks(m, k, s, rs).opers)
  {
    hide EnterOpers, InsertAfter;
    if rs != [] {
      var n := |rs| - 1;
      EnterBlocksKeyed(m, k, s, rs[..n]);
      EnterOpersKeyed(m, k, EnterCb(EnterBlocks(m, k, s, rs[..n]), rs[n]), rs[n].id, rs[n].ops);
    }
  }

  lemma {:induction false} LookupKeepsIds<S(!new)>(opers: map<int, Operation<S>>, ids: seq<int>)
    requires KeyedById(opers)
    ensures var ops := Lookup(opers, ids);
      ops.Some? ==> |ops.value| == |ids| && forall i :: 0 <= i < |ids| ==> ops.value[i].id == ids[i]
  {
    if ids != [] {
      LookupKeepsIds(opers, ids[..|ids| - 1]);
    }
  }

  /** No two operations of the block have the same id. */
  ghost predicate DistinctOpers<S(!new)>(cb: Block<S>) {
    forall i, j :: 0 <= i < j < |cb.ops| ==> cb.ops[i].id != cb.ops[j].id
  }

  lemma BlockAtIsDistinct<S(!new)>(s: Store<S>, id: int)
    requires KeyedById(s.opers)
    ensures var cb := BlockAt(s, id);
      cb.Some? ==> cb.value.id == id && DistinctOpers(cb.value)
  {
    hide Walk, Lookup;
    if id in s.cbs {
      var first := s.cbs[id].ops.first;
      WalkIsDistinct(s.next, first, {});
      if Walk(s.next, first, {}).Some? {
        LookupKeepsIds(s.opers, Walk(s.next, first, {}).value);
      }
    }
  }

  lemma {:induction false} BlocksAtAreDistinct<S(!new)>(s: Store<S>, ids: seq<int>)
    requires KeyedById(s.opers)
    ensures var cbs := BlocksAt(s, ids);
      cbs.Some? ==>
        && |cbs.value| == |ids|
        && forall i :: 0 <= i < |ids| ==> cbs.value[i].id == ids[i] && DistinctOpers(cbs.value[i])
  {
    hide BlockAt, DistinctOpers;
    if ids != [] {
      BlocksAtAreDistinct(s, ids[..|ids| - 1]);
      BlockAtIsDistinct(s, ids[|ids| - 1]);
    }
  }

  ghost predicate DistinctCbs<S(!new)>(cbs: seq<Block<S>>) {
    && (forall i, j :: 0 <= i < j < |cbs| ==> cbs[i].id != cbs[j].id)
    && (forall i :: 0 <= i < |cbs| ==> DistinctOpers(cbs[i]))
  }

  lemma AssembledIsDistinct<S(!new)>(m: Machine, k: SlotKind<S>, r: FnRecord<S>)
    ensures var fn := Assemble(m, k, r);
      fn.Some? ==> DistinctCbs(fn.value.cbs)
  {
    hide EnterBlocks, Walk, BlocksAt, LargestIdGiven, DefinesOk, DistinctOpers;
    var s := EnterBlocks(m, k, EmptyStore(r.flags), r.cbs);
    EnterBlocksKeyed(m, k, EmptyStore(r.flags), r.cbs);
    WalkIsDistinct(s.nextCb, s.ends.first, {});
    var ids := Walk(s.nextCb, s.ends.first, {});
    if ids.Some? {
      BlocksAtAreDistinct(s, ids.value);
    }
  }

  /** Whatever the bytes, what is read has distinct block ids, and distinct operation ids in each
      block.  So no function with a repeated id of either kind is ever read back. */
  lemma ReadIsDistinct(m: Machine, bs: seq<Byte>)
    ensures var r := DecodeFunction(m, bs);
      r.Got? ==> DistinctCbs(r.value.cbs)
  {
    hide ParseFunction, Assemble;
    if ParseFunction(m, bs).Got? {
      AssembledIsDistinct(m, VALUES, ParseFunction(m, bs).value);
    }
  }
}
