/** The objects the reader builds from records.  Operations and blocks are looked up by id, so a
    repeated id reuses an object; lists are linked through the objects; and flags are set on the
    way. */
module BinaryObjects {
  import opened Collections
  import opened BinaryCodec
  import opened Flags
  import opened BinaryOperand
  import opened BinaryOper
  import opened BinaryBody

  // ----- lists linked through the objects -----

  /** Successors by id; an id without an entry has none. */
  type Links = map<int, int>

  datatype Ends = Ends(first: Option<int>, last: Option<int>)

  const NO_ENDS: Ends := Ends(None, None)

  /** Links id behind the last element, as the source assigns its pointers: id may already be in a
      list, or be the last element itself. */
  function InsertAfter(next: Links, e: Ends, id: int): (Links, Ends) {
    var after := if e.last.None? then e.first
                 else if e.last.value in next then Some(next[e.last.value]) else None;
    var linked := if after.Some? then next[id := after.value] else next - {id};
    if e.last.None? then (linked, Ends(Some(id), if after.Some? then e.last else Some(id)))
    else
      var next' := linked[e.last.value := id];
      (next', Ends(e.first, if id in next' then e.last else Some(id)))
  }

  /** The ids met from start on; None when the links run in a circle. */
  function Walk(next: Links, start: Option<int>, seen: set<int>): Option<seq<int>>
    decreases next.Keys - seen
  {
    if start.None? then Some([])
    else if start.value in seen then None
    else if start.value !in next then Some([start.value])
    else
      match Walk(next, Some(next[start.value]), seen + {start.value})
      case None => None
      case Some(ids) => Some([start.value] + ids)
  }

  /** A proper list: the ends and links spell these ids. */
  ghost predicate Chained(next: Links, e: Ends, ids: seq<int>) {
    && Distinct(ids)
    && (if ids == [] then e == NO_ENDS else e == Ends(Some(ids[0]), Some(ids[|ids| - 1])))
    && (forall i :: 0 <= i < |ids| - 1 ==> Follows(next, ids, i))
    && (ids != [] ==> ids[|ids| - 1] !in next)
  }

  ghost predicate Follows(next: Links, ids: seq<int>, i: nat)
    requires i + 1 < |ids|
  {
    ids[i] in next && next[ids[i]] == ids[i + 1]
  }

  lemma {:induction false} WalkChain(next: Links, e: Ends, ids: seq<int>, k: nat, seen: set<int>)
    requires Chained(next, e, ids) && k < |ids| && forall i :: k <= i < |ids| ==> ids[i] !in seen
    ensures Walk(next, Some(ids[k]), seen) == Some(ids[k..])
    decreases |ids| - k
  {
    if k + 1 < |ids| {
      var j := k + 1;
      assert Follows(next, ids, k);
      WalkChain(next, e, ids, j, seen + {ids[k]});
      assert ids[k..] == [ids[k]] + ids[j..];
    } else {
      assert ids[k..] == [ids[k]];
    }
  }

  /** Walking a proper list meets its ids. */
  lemma ChainIsWalked(next: Links, e: Ends, ids: seq<int>)
    requires Chained(next, e, ids)
    ensures Walk(next, e.first, {}) == Some(ids)
  {
    if ids != [] {
      WalkChain(next, e, ids, 0, {});
      assert ids[0..] == ids;
    }
  }

  /** A new id goes to the end of a proper list, and no link changes but that of the last element. */
  lemma ChainGrows(next: Links, e: Ends, ids: seq<int>, id: int)
    requires Chained(next, e, ids) && id !in ids && id !in next
    ensures var (next', e') := InsertAfter(next, e, id);
      && Chained(next', e', ids + [id])
      && next' == if ids == [] then next else next[ids[|ids| - 1] := id]
  {
    var (next', e') := InsertAfter(next, e, id);
    var all := ids + [id];
    assert next - {id} == next;
    forall i | 0 <= i < |all| - 1
      ensures Follows(next', all, i)
    {
      if i + 1 < |ids| {
        assert Follows(next, ids, i);
        assert ids[i] != ids[|ids| - 1];
      }
    }
  }

  ghost predicate SameLink(next: Links, next': Links, id: int) {
    (id in next <==> id in next') && (id in next ==> next'[id] == next[id])
  }

  /** A list is not affected by links of ids outside it. */
  lemma ChainStays(next: Links, next': Links, e: Ends, ids: seq<int>)
    requires Chained(next, e, ids)
    requires forall i :: 0 <= i < |ids| ==> SameLink(next, next', ids[i])
    ensures Chained(next', e, ids)
  {
    forall i | 0 <= i < |ids| - 1
      ensures Follows(next', ids, i)
    {
      assert Follows(next, ids, i) && SameLink(next, next', ids[i]);
    }
    assert ids != [] ==> SameLink(next, next', ids[|ids| - 1]);
  }

  /** The last element inserted once more points to itself, and a walk that meets it never ends. */
  lemma RepeatedLastIsCircle(next: Links, e: Ends, ids: seq<int>)
    requires Chained(next, e, ids) && ids != []
    ensures var (next', e') := InsertAfter(next, e, ids[|ids| - 1]);
      Walk(next', e'.first, {}) == None
  {
    var n := |ids| - 1;
    var (next', e') := InsertAfter(next, e, ids[n]);
    assert next' == next[ids[n] := ids[n]];
    CircleFrom(next, e, ids, 0, {});
  }

  lemma {:induction false} CircleFrom(next: Links, e: Ends, ids: seq<int>, k: nat, seen: set<int>)
    requires Chained(next, e, ids) && k < |ids| && forall i :: k <= i < |ids| ==> ids[i] !in seen
    ensures var n := |ids| - 1;
      Walk(next[ids[n] := ids[n]], Some(ids[k]), seen) == None
    decreases |ids| - k
  {
    var n := |ids| - 1;
    var next' := next[ids[n] := ids[n]];
    if k < n {
      var j := k + 1;
      assert Follows(next, ids, k);
      CircleFrom(next, e, ids, j, seen + {ids[k]});
    } else {
      assert Walk(next', Some(ids[n]), seen + {ids[n]}) == None;
    }
  }

  // ----- operation objects -----

  /** What a slot without an operand looks like, and the operand behind a slot. */
  datatype SlotKind<!S> = SlotKind(none: S, value: S -> Option<Operand>)

  /** Slots that hold operands by value. */
  const VALUES: SlotKind<Slot> := SlotKind(None, (s: Slot) => s)

  /** The listed slots are stored over those of the object; later ones keep what they held. */
  function Overlay<S>(s: seq<S>, base: seq<S>): seq<S> {
    if |s| <= |base| then s + base[|s|..] else s
  }

  /** An operation object after one more record. */
  function Apply<S>(base: Operation<S>, r: OperRecord<S>): Operation<S> {
    Oper(base.id, r.opcode, r.com, Overlay(r.src, base.src), Overlay(r.dest, base.dest),
         if r.flags.Some? then r.flags.value else base.flags, Overlay(r.pred, base.pred), base.attrs + r.attrs)
  }

  function BlankOper<S>(m: Machine, none: S, id: int): Operation<S> {
    Oper(id, [], [], seq(m.maxSrc, _ => none), seq(m.maxDest, _ => none), {}, seq(m.maxPred, _ => none), [])
  }

  predicate Predicated<S>(k: SlotKind<S>, o: Operation<S>) {
    o.pred != [] && k.value(o.pred[0]).Some?
  }

  /** The flags an operation puts on its block when it is linked in. */
  function FlagsFor<S>(m: Machine, k: SlotKind<S>, o: Operation<S>): (flags: set<Byte>)
    ensures flags <= {PROLOGUE, EPILOGUE, HYPERBLOCK}
    ensures PROLOGUE in flags <==> o.opcode == m.prologue
    ensures EPILOGUE in flags <==> o.opcode == m.epilogue && o.opcode != m.prologue
    ensures HYPERBLOCK in flags <==> o.pred != [] && k.value(o.pred[0]).Some?
  {
    (if o.opcode == m.prologue then {PROLOGUE} else if o.opcode == m.epilogue then {EPILOGUE} else {})
    + (if Predicated(k, o) then {HYPERBLOCK} else {})
  }

  // ----- all objects of a function -----

  datatype CbObject<S> = CbObject(flags: set<Byte>, weight: Text, flows: seq<Flow>, attrs: seq<Attribute<S>>, ops: Ends)

  datatype Store<S> = Store(opers: map<int, Operation<S>>, next: Links,
                                cbs: map<int, CbObject<S>>, nextCb: Links, ends: Ends, flags: set<Byte>)

  function EmptyStore<S>(flags: set<Byte>): Store<S> {
    Store(map[], map[], map[], map[], NO_ENDS, flags)
  }

  /** A block record without its operations. */
  function EnterCb<S>(s: Store<S>, r: BlockRecord<S>): (s': Store<S>)
    ensures r.id in s'.cbs
  {
    var base := if r.id in s.cbs then s.cbs[r.id] else CbObject({}, [], [], [], NO_ENDS);
    var obj := base.(flags := if r.flags.Some? then r.flags.value else base.flags, weight := r.weight,
                     flows := base.flows + r.flows, attrs := base.attrs + r.attrs);
    var (next, ends) := InsertAfter(s.nextCb, s.ends, r.id);
    s.(cbs := s.cbs[r.id := obj], nextCb := next, ends := ends)
  }

  /** The object an operation record makes of what is there. */
  function Entered<S>(m: Machine, k: SlotKind<S>, opers: map<int, Operation<S>>, r: OperRecord<S>): Operation<S> {
    Apply(if r.id in opers then opers[r.id] else BlankOper(m, k.none, r.id), r)
  }

  /** An operation record of block cb. */
  function EnterOper<S>(m: Machine, k: SlotKind<S>, s: Store<S>, cb: int, r: OperRecord<S>): (s': Store<S>)
    requires cb in s.cbs
    ensures cb in s'.cbs
  {
    var o := Entered(m, k, s.opers, r);
    var b := s.cbs[cb];
    var (next, ends) := InsertAfter(s.next, b.ops, r.id);
    s.(opers := s.opers[r.id := o], next := next,
       cbs := s.cbs[cb := b.(flags := b.flags + FlagsFor(m, k, o), ops := ends)],
       flags := s.flags + if Predicated(k, o) then {HYPERBLOCK} else {})
  }

  function EnterOpers<S>(m: Machine, k: SlotKind<S>, s: Store<S>, cb: int, rs: seq<OperRecord<S>>): (s': Store<S>)
    requires cb in s.cbs
    ensures cb in s'.cbs
  {
    if rs == [] then s else EnterOper(m, k, EnterOpers(m, k, s, cb, rs[..|rs| - 1]), cb, rs[|rs| - 1])
  }

  function EnterBlocks<S>(m: Machine, k: SlotKind<S>, s: Store<S>, rs: seq<BlockRecord<S>>): Store<S> {
    if rs == [] then s
    else
      var r := rs[|rs| - 1];
      EnterOpers(m, k, EnterCb(EnterBlocks(m, k, s, rs[..|rs| - 1]), r), r.id, r.ops)
  }

  /** The objects behind ids. */
  function Lookup<T>(table: map<int, T>, ids: seq<int>): Option<seq<T>> {
    if ids == [] then Some([])
    else
      match Lookup(table, ids[..|ids| - 1])
      case None => None
      case Some(found) => if ids[|ids| - 1] in table then Some(found + [table[ids[|ids| - 1]]]) else None
  }

  /** A block as a traversal sees it; None when its list runs in a circle. */
  function BlockAt<S>(s: Store<S>, id: int): Option<Block<S>> {
    if id !in s.cbs then None
    else
      var b := s.cbs[id];
      match Walk(s.next, b.ops.first, {})
      case None => None
      case Some(ids) =>
        match Lookup(s.opers, ids)
        case None => None
        case Some(ops) => Some(Cb(id, b.flags, b.weight, b.flows, b.attrs, ops))
  }

  function BlocksAt<S>(s: Store<S>, ids: seq<int>): Option<seq<Block<S>>> {
    if ids == [] then Some([])
    else
      match BlocksAt(s, ids[..|ids| - 1])
      case None => None
      case Some(cbs) =>
        match BlockAt(s, ids[|ids| - 1])
        case None => None
        case Some(cb) => Some(cbs + [cb])
  }

  /** The blocks as a traversal of the function sees them. */
  function Collected<S>(s: Store<S>): Option<seq<Block<S>>> {
    match Walk(s.nextCb, s.ends.first, {})
    case None => None
    case Some(ids) => BlocksAt(s, ids)
  }

  // ----- records with distinct ids -----

  function OperIds<S>(rs: seq<OperRecord<S>>): (ids: seq<int>)
    ensures |ids| == |rs|
  {
    seq(|rs|, i requires 0 <= i < |rs| => rs[i].id)
  }

  function BlockIds<S>(rs: seq<BlockRecord<S>>): (ids: seq<int>)
    ensures |ids| == |rs|
  {
    seq(|rs|, i requires 0 <= i < |rs| => rs[i].id)
  }

  /** The ids of all operation records, block after block. */
  function AllOperIds<S>(rs: seq<BlockRecord<S>>): seq<int> {
    if rs == [] then [] else AllOperIds(rs[..|rs| - 1]) + OperIds(rs[|rs| - 1].ops)
  }

  ghost predicate DistinctIds<S>(rs: seq<BlockRecord<S>>) {
    Distinct(BlockIds(rs)) && Distinct(AllOperIds(rs))
  }

  function PlainOper<S>(m: Machine, k: SlotKind<S>, r: OperRecord<S>): Operation<S> {
    Apply(BlankOper(m, k.none, r.id), r)
  }

  function PlainOpers<S>(m: Machine, k: SlotKind<S>, rs: seq<OperRecord<S>>): (ops: seq<Operation<S>>)
    ensures |ops| == |rs|
  {
    seq(|rs|, i requires 0 <= i < |rs| => PlainOper(m, k, rs[i]))
  }

  /** The flags a list of operations puts on its block. */
  function OpersFlags<S>(m: Machine, k: SlotKind<S>, rs: seq<OperRecord<S>>): set<Byte> {
    if rs == [] then {}
    else OpersFlags(m, k, rs[..|rs| - 1]) + FlagsFor(m, k, PlainOper(m, k, rs[|rs| - 1]))
  }

  function PlainFlags<S>(m: Machine, k: SlotKind<S>, r: BlockRecord<S>): set<Byte> {
    (if r.flags.Some? then r.flags.value else {}) + OpersFlags(m, k, r.ops)
  }

  function PlainBlock<S>(m: Machine, k: SlotKind<S>, r: BlockRecord<S>): Block<S> {
    Cb(r.id, PlainFlags(m, k, r), r.weight, r.flows, r.attrs, PlainOpers(m, k, r.ops))
  }

  function PlainBlocks<S>(m: Machine, k: SlotKind<S>, rs: seq<BlockRecord<S>>): (cbs: seq<Block<S>>)
    ensures |cbs| == |rs|
  {
    seq(|rs|, i requires 0 <= i < |rs| => PlainBlock(m, k, rs[i]))
  }

  /** The flags the blocks put on the function. */
  function BlocksFlags<S>(m: Machine, k: SlotKind<S>, rs: seq<BlockRecord<S>>): set<Byte> {
    if rs == [] then {}
    else BlocksFlags(m, k, rs[..|rs| - 1]) + (OpersFlags(m, k, rs[|rs| - 1].ops) * {HYPERBLOCK})
  }

  /** The objects hold this record's block and operations as if nothing else had been read. */
  ghost predicate HoldsBlock<S>(m: Machine, k: SlotKind<S>, s: Store<S>, r: BlockRecord<S>) {
    && r.id in s.cbs
    && var b := s.cbs[r.id];
       && b == CbObject(PlainFlags(m, k, r), r.weight, r.flows, r.attrs, b.ops)
       && Chained(s.next, b.ops, OperIds(r.ops))
       && forall j :: 0 <= j < |r.ops| ==> r.ops[j].id in s.opers && s.opers[r.ops[j].id] == PlainOper(m, k, r.ops[j])
  }

  ghost predicate Holds<S>(m: Machine, k: SlotKind<S>, flags: set<Byte>, s: Store<S>, rs: seq<BlockRecord<S>>) {
    && Chained(s.nextCb, s.ends, BlockIds(rs))
    && (forall id :: id in s.nextCb || id in s.cbs ==> id in BlockIds(rs))
    && (forall id :: id in s.next || id in s.opers ==> id in AllOperIds(rs))
    && (forall i :: 0 <= i < |rs| ==> HoldsBlock(m, k, s, rs[i]))
    && s.flags == flags + BlocksFlags(m, k, rs)
  }

  lemma {:induction false} InAllOperIds<S>(rs: seq<BlockRecord<S>>, i: nat, id: int)
    requires i < |rs| && id in OperIds(rs[i].ops)
    ensures id in AllOperIds(rs)
    decreases |rs|
  {
    var n := |rs| - 1;
    if i < n {
      assert rs[..n][i] == rs[i];
      InAllOperIds(rs[..n], i, id);
    }
  }

  /** Distinct ids of a concatenation do not meet. */
  lemma DistinctParts(a: seq<int>, b: seq<int>)
    requires Distinct(a + b)
    ensures Distinct(a) && Distinct(b) && forall x :: x in a ==> x !in b
  {
    var all := a + b;
    forall i | 0 <= i < |a|
      ensures all[i] == a[i]
    {
    }
    forall i | 0 <= i < |b|
      ensures all[|a| + i] == b[i]
    {
    }
    forall i, j | 0 <= i < |a| && 0 <= j < |b|
      ensures a[i] != b[j]
    {
      assert all[i] != all[|a| + j];
    }
  }

  lemma OperIdsSnoc<S>(rs: seq<OperRecord<S>>, r: OperRecord<S>)
    ensures OperIds(rs + [r]) == OperIds(rs) + [r.id]
  {
  }

  lemma BlockIdsSnoc<S>(rs: seq<BlockRecord<S>>, r: BlockRecord<S>)
    ensures BlockIds(rs + [r]) == BlockIds(rs) + [r.id]
  {
  }

  lemma AllOperIdsSnoc<S>(rs: seq<BlockRecord<S>>, r: BlockRecord<S>)
    ensures AllOperIds(rs + [r]) == AllOperIds(rs) + OperIds(r.ops)
  {
    assert (rs + [r])[..|rs|] == rs;
  }

  /** A block stays as it is when neither its object nor its operations change. */
  lemma KeepsBlock<S>(m: Machine, k: SlotKind<S>, s: Store<S>, s': Store<S>, r: BlockRecord<S>)
    requires HoldsBlock(m, k, s, r) && r.id in s'.cbs && s'.cbs[r.id] == s.cbs[r.id]
    requires forall j :: 0 <= j < |r.ops| ==>
               && SameLink(s.next, s'.next, r.ops[j].id)
               && (r.ops[j].id in s.opers ==> r.ops[j].id in s'.opers && s'.opers[r.ops[j].id] == s.opers[r.ops[j].id])
    ensures HoldsBlock(m, k, s', r)
  {
    hide Chained, PlainOper, PlainFlags;
    var ids := OperIds(r.ops);
    assert forall j :: 0 <= j < |ids| ==> ids[j] == r.ops[j].id;
    ChainStays(s.next, s'.next, s.cbs[r.id].ops, ids);
  }

  /** A block just entered has no operations yet. */
  lemma NewBlock<S>(m: Machine, k: SlotKind<S>, s: Store<S>, r: BlockRecord<S>)
    requires r.id !in s.cbs
    ensures HoldsBlock(m, k, EnterCb(s, r), r.(ops := []))
  {
    hide InsertAfter;
    NoChain(s.next);
    assert OperIds(r.(ops := []).ops) == [];
  }

  /** A new block joins the objects. */
  lemma HoldsCb<S>(m: Machine, k: SlotKind<S>, flags: set<Byte>, s: Store<S>,
                   rs: seq<BlockRecord<S>>, r: BlockRecord<S>)
    requires Holds(m, k, flags, s, rs) && r.id !in BlockIds(rs)
    ensures Holds(m, k, flags, EnterCb(s, r), rs + [r.(ops := [])])
  {
    hide InsertAfter, Chained, HoldsBlock;
    var r0, s' := r.(ops := []), EnterCb(s, r);
    var all := rs + [r0];
    BlockIdsSnoc(rs, r0);
    AllOperIdsSnoc(rs, r0);
    assert AllOperIds(rs) + OperIds(r0.ops) == AllOperIds(rs);
    ChainGrows(s.nextCb, s.ends, BlockIds(rs), r.id);
    NewBlock(m, k, s, r);
    forall i | 0 <= i < |all|
      ensures HoldsBlock(m, k, s', all[i])
    {
      if i < |rs| {
        assert all[i] == rs[i] && BlockIds(rs)[i] == rs[i].id;
        InObjects(m, k, s, rs[i]);
        KeepsBlock(m, k, s, s', rs[i]);
      }
    }
    assert all[..|rs|] == rs;
  }

  lemma InObjects<S>(m: Machine, k: SlotKind<S>, s: Store<S>, r: BlockRecord<S>)
    requires HoldsBlock(m, k, s, r)
    ensures r.id in s.cbs && Chained(s.next, s.cbs[r.id].ops, OperIds(r.ops))
  {
  }

  /** The block that gets a new operation. */
  lemma GrowsBlock<S>(m: Machine, k: SlotKind<S>, s: Store<S>, r: BlockRecord<S>, x: OperRecord<S>)
    requires HoldsBlock(m, k, s, r) && x.id !in s.opers && x.id !in s.next && x.id !in OperIds(r.ops)
    ensures HoldsBlock(m, k, EnterOper(m, k, s, r.id, x), r.(ops := r.ops + [x]))
  {
    hide InsertAfter, Chained, PlainOper, FlagsFor, Apply;
    var r', s' := r.(ops := r.ops + [x]), EnterOper(m, k, s, r.id, x);
    var ids, b := OperIds(r.ops), s.cbs[r.id];
    OperIdsSnoc(r.ops, x);
    ChainGrows(s.next, b.ops, ids, x.id);
    assert s'.opers[x.id] == PlainOper(m, k, x) by {
      PlainIsApplied(m, k, x);
    }
    assert r'.ops[..|r.ops|] == r.ops;
    assert s'.cbs[r.id].flags == PlainFlags(m, k, r) + FlagsFor(m, k, PlainOper(m, k, x));
    assert PlainFlags(m, k, r') == PlainFlags(m, k, r) + FlagsFor(m, k, PlainOper(m, k, x));
    forall j | 0 <= j < |r'.ops|
      ensures r'.ops[j].id in s'.opers && s'.opers[r'.ops[j].id] == PlainOper(m, k, r'.ops[j])
    {
      if j < |r.ops| {
        assert r'.ops[j] == r.ops[j] && ids[j] == r.ops[j].id;
      }
    }
  }

  lemma PlainIsApplied<S>(m: Machine, k: SlotKind<S>, x: OperRecord<S>)
    ensures PlainOper(m, k, x) == Apply(BlankOper(m, k.none, x.id), x)
  {
  }

  /** What entering an operation leaves alone. */
  lemma OnlyLastChanges<S>(m: Machine, k: SlotKind<S>, s: Store<S>, cb: int, ids: seq<int>, x: OperRecord<S>)
    requires cb in s.cbs && Chained(s.next, s.cbs[cb].ops, ids) && x.id !in ids && x.id !in s.next
    ensures var s' := EnterOper(m, k, s, cb, x);
      && (forall id :: id !in ids ==> SameLink(s.next, s'.next, id))
      && (forall id :: id in s'.next ==> id in s.next || id in ids)
      && (forall id :: id in s.cbs && id != cb ==> id in s'.cbs && s'.cbs[id] == s.cbs[id])
      && (forall id :: id in s.opers && id != x.id ==> id in s'.opers && s'.opers[id] == s.opers[id])
  {
    hide Chained, InsertAfter, Apply, FlagsFor, Predicated;
    ChainGrows(s.next, s.cbs[cb].ops, ids, x.id);
    assert ids != [] ==> ids[|ids| - 1] in ids;
  }

  /** A new operation joins the last block. */
  lemma HoldsOper<S>(m: Machine, k: SlotKind<S>, flags: set<Byte>, s: Store<S>, rs: seq<BlockRecord<S>>,
                     r: BlockRecord<S>, x: OperRecord<S>)
    requires Holds(m, k, flags, s, rs + [r]) && x.id !in AllOperIds(rs + [r]) && Distinct(AllOperIds(rs + [r]))
    ensures r.id in s.cbs
    ensures Holds(m, k, flags, EnterOper(m, k, s, r.id, x), rs + [r.(ops := r.ops + [x])])
  {
    hide InsertAfter, Chained, HoldsBlock, FlagsFor, Apply, PlainOper, OperIds, BlockIds;
    var old', all := rs + [r], rs + [r.(ops := r.ops + [x])];
    assert old'[|rs|] == r && all[|rs|] == r.(ops := r.ops + [x]);
    InObjects(m, k, s, r);
    var s' := EnterOper(m, k, s, r.id, x);
    BlockIdsSnoc(rs, r);
    BlockIdsSnoc(rs, all[|rs|]);
    AllOperIdsSnoc(rs, r);
    AllOperIdsSnoc(rs, all[|rs|]);
    OperIdsSnoc(r.ops, x);
    Assoc3Ids(AllOperIds(rs), OperIds(r.ops), x.id);
    DistinctParts(AllOperIds(rs), OperIds(r.ops));
    OnlyLastChanges(m, k, s, r.id, OperIds(r.ops), x);
    ChainIsDistinct(s.nextCb, s.ends, BlockIds(old'));
    PlainIsApplied(m, k, x);
    GrowsBlock(m, k, s, r, x);
    forall i | 0 <= i < |all|
      ensures HoldsBlock(m, k, s', all[i])
    {
      if i < |rs| {
        assert old'[i] == rs[i] && all[i] == rs[i];
        OtherBlock(m, k, s, rs, r, x, i);
      }
    }
    FnFlagsGrow(m, k, rs, r, x);
    assert s'.flags == flags + BlocksFlags(m, k, all);
  }

  lemma Assoc3Ids(a: seq<int>, b: seq<int>, x: int)
    ensures a + (b + [x]) == (a + b) + [x]
  {
  }

  /** The function's flags after one more operation in the last block. */
  lemma FnFlagsGrow<S>(m: Machine, k: SlotKind<S>, rs: seq<BlockRecord<S>>, r: BlockRecord<S>, x: OperRecord<S>)
    ensures BlocksFlags(m, k, rs + [r.(ops := r.ops + [x])]) ==
            BlocksFlags(m, k, rs + [r]) + if Predicated(k, PlainOper(m, k, x)) then {HYPERBLOCK} else {}
  {
    hide PlainOper, Predicated;
    var r' := r.(ops := r.ops + [x]);
    assert (rs + [r])[..|rs|] == rs && (rs + [r'])[..|rs|] == rs;
    assert r'.ops[..|r.ops|] == r.ops;
  }

  lemma DistinctBlocks<S>(rs: seq<BlockRecord<S>>, r: BlockRecord<S>, i: nat)
    requires i < |rs| && Distinct(BlockIds(rs + [r]))
    ensures rs[i].id != r.id
  {
    var ids := BlockIds(rs + [r]);
    assert ids[i] == rs[i].id && ids[|rs|] == r.id;
  }

  lemma ChainIsDistinct(next: Links, e: Ends, ids: seq<int>)
    requires Chained(next, e, ids)
    ensures Distinct(ids)
  {
  }

  lemma OtherBlock<S>(m: Machine, k: SlotKind<S>, s: Store<S>, rs: seq<BlockRecord<S>>, r: BlockRecord<S>,
                      x: OperRecord<S>, i: nat)
    requires i < |rs| && HoldsBlock(m, k, s, rs[i]) && HoldsBlock(m, k, s, r)
    requires Distinct(BlockIds(rs + [r])) && Distinct(AllOperIds(rs + [r])) && x.id !in AllOperIds(rs + [r])
    requires x.id !in s.next
    ensures HoldsBlock(m, k, EnterOper(m, k, s, r.id, x), rs[i])
  {
    hide InsertAfter, Chained, HoldsBlock, EnterOper, AllOperIds, Distinct, SameLink;
    InObjects(m, k, s, r);
    var s', q := EnterOper(m, k, s, r.id, x), rs[i];
    InObjects(m, k, s, q);
    DistinctBlocks(rs, r, i);
    AllOperIdsSnoc(rs, r);
    DistinctParts(AllOperIds(rs), OperIds(r.ops));
    OnlyLastChanges(m, k, s, r.id, OperIds(r.ops), x);
    forall j | 0 <= j < |q.ops|
      ensures SameLink(s.next, s'.next, q.ops[j].id) && q.ops[j].id != x.id
    {
      assert OperIds(q.ops)[j] == q.ops[j].id;
      InAllOperIds(rs, i, q.ops[j].id);
    }
    KeepsBlock(m, k, s, s', q);
  }

  lemma NoChain(next: Links)
    ensures Chained(next, NO_ENDS, [])
  {
  }

  lemma {:induction false} HoldsOpers<S>(m: Machine, k: SlotKind<S>, flags: set<Byte>, s: Store<S>,
                                         rs: seq<BlockRecord<S>>, r: BlockRecord<S>, ops: seq<OperRecord<S>>)
    requires Holds(m, k, flags, s, rs + [r.(ops := [])]) && r.id in s.cbs
    requires Distinct(AllOperIds(rs + [r.(ops := ops)]))
    ensures Holds(m, k, flags, EnterOpers(m, k, s, r.id, ops), rs + [r.(ops := ops)])
  {
    hide Holds, EnterOper, AllOperIds, OperIds;
    if ops != [] {
      var n := |ops| - 1;
      var before, x := ops[..n], ops[n];
      assert ops == before + [x];
      var r0 := r.(ops := before);
      AllOperIdsSnoc(rs, r.(ops := ops));
      AllOperIdsSnoc(rs, r0);
      OperIdsSnoc(before, x);
      Assoc3Ids(AllOperIds(rs), OperIds(before), x.id);
      DistinctParts(AllOperIds(rs + [r0]), [x.id]);
      LastIsNew(AllOperIds(rs + [r0]), x.id);
      HoldsOpers(m, k, flags, s, rs, r, before);
      HoldsOper(m, k, flags, EnterOpers(m, k, s, r.id, before), rs, r0, x);
    }
  }

  lemma LastIsNew(ids: seq<int>, x: int)
    requires Distinct(ids + [x])
    ensures x !in ids
  {
    var all := ids + [x];
    assert all[|ids|] == x;
    assert forall i :: 0 <= i < |ids| ==> all[i] == ids[i];
  }

  /** Records with distinct ids leave objects that hold every record on its own. */
  lemma {:induction false} HoldsBlocks<S>(m: Machine, k: SlotKind<S>, flags: set<Byte>, rs: seq<BlockRecord<S>>)
    requires DistinctIds(rs)
    ensures Holds(m, k, flags, EnterBlocks(m, k, EmptyStore(flags), rs), rs)
  {
    hide Holds, EnterCb, EnterOpers, AllOperIds, BlockIds;
    if rs == [] {
      HoldsNothing(m, k, flags);
    } else {
      var n := |rs| - 1;
      var before, r := rs[..n], rs[n];
      assert rs == before + [r];
      BlockIdsSnoc(before, r);
      AllOperIdsSnoc(before, r);
      DistinctParts(BlockIds(before), [r.id]);
      LastIsNew(BlockIds(before), r.id);
      DistinctParts(AllOperIds(before), OperIds(r.ops));
      HoldsBlocks(m, k, flags, before);
      var s := EnterBlocks(m, k, EmptyStore(flags), before);
      HoldsCb(m, k, flags, s, before, r);
      assert r.(ops := r.ops) == r;
      HoldsOpers(m, k, flags, EnterCb(s, r), before, r, r.ops);
    }
  }

  lemma HoldsNothing<S>(m: Machine, k: SlotKind<S>, flags: set<Byte>)
    ensures Holds(m, k, flags, EmptyStore(flags), [])
  {
    NoChain(map[]);
    assert BlockIds<S>([]) == [];
  }

  lemma {:induction false} LookupAll<S>(m: Machine, k: SlotKind<S>, table: map<int, Operation<S>>,
                                        rs: seq<OperRecord<S>>)
    requires forall j :: 0 <= j < |rs| ==> rs[j].id in table && table[rs[j].id] == PlainOper(m, k, rs[j])
    ensures Lookup(table, OperIds(rs)) == Some(PlainOpers(m, k, rs))
  {
    hide PlainOper;
    if rs != [] {
      var n := |rs| - 1;
      assert rs == rs[..n] + [rs[n]];
      LookupAll(m, k, table, rs[..n]);
      OperIdsSnoc(rs[..n], rs[n]);
      assert OperIds(rs)[..n] == OperIds(rs[..n]);
      assert PlainOpers(m, k, rs) == PlainOpers(m, k, rs[..n]) + [PlainOper(m, k, rs[n])];
    }
  }

  lemma HeldBlock<S>(m: Machine, k: SlotKind<S>, s: Store<S>, r: BlockRecord<S>)
    requires HoldsBlock(m, k, s, r)
    ensures BlockAt(s, r.id) == Some(PlainBlock(m, k, r))
  {
    hide Chained, Walk, Lookup, PlainOper, PlainFlags;
    ChainIsWalked(s.next, s.cbs[r.id].ops, OperIds(r.ops));
    LookupAll(m, k, s.opers, r.ops);
  }

  lemma {:induction false} HeldBlocks<S>(m: Machine, k: SlotKind<S>, s: Store<S>, rs: seq<BlockRecord<S>>)
    requires forall i :: 0 <= i < |rs| ==> HoldsBlock(m, k, s, rs[i])
    ensures BlocksAt(s, BlockIds(rs)) == Some(PlainBlocks(m, k, rs))
  {
    hide HoldsBlock, BlockAt, PlainBlock;
    if rs != [] {
      var n := |rs| - 1;
      assert rs == rs[..n] + [rs[n]];
      HeldBlocks(m, k, s, rs[..n]);
      HeldBlock(m, k, s, rs[n]);
      BlockIdsSnoc(rs[..n], rs[n]);
      assert BlockIds(rs)[..n] == BlockIds(rs[..n]);
      assert PlainBlocks(m, k, rs) == PlainBlocks(m, k, rs[..n]) + [PlainBlock(m, k, rs[n])];
    }
  }

  /** From records with distinct ids a traversal sees exactly the blocks and operations of the
      records, in their order, with the flags the operations put on them. */
  lemma DistinctIdsCollect<S>(m: Machine, k: SlotKind<S>, flags: set<Byte>, rs: seq<BlockRecord<S>>)
    requires DistinctIds(rs)
    ensures var s := EnterBlocks(m, k, EmptyStore(flags), rs);
      && Collected(s) == Some(PlainBlocks(m, k, rs))
      && s.flags == flags + BlocksFlags(m, k, rs)
  {
    hide DistinctIds, EnterBlocks, Chained, Walk, HoldsBlock, BlocksAt, PlainBlocks, BlocksFlags, BlockIds, AllOperIds;
    HoldsBlocks(m, k, flags, rs);
    var s := EnterBlocks(m, k, EmptyStore(flags), rs);
    ChainIsWalked(s.nextCb, s.ends, BlockIds(rs));
    HeldBlocks(m, k, s, rs);
  }

  /** A block whose last operation is read twice can never be traversed. */
  lemma RepeatedOperIsCircle<S>(m: Machine, k: SlotKind<S>, flags: set<Byte>, r: BlockRecord<S>, x: OperRecord<S>)
    requires DistinctIds([r]) && r.ops != [] && x.id == r.ops[|r.ops| - 1].id
    ensures Collected(EnterBlocks(m, k, EmptyStore(flags), [r.(ops := r.ops + [x])])) == None
  {
    hide EnterCb, InsertAfter, Walk, Chained, Apply;
    var r' := r.(ops := r.ops + [x]);
    HoldsBlocks(m, k, flags, [r]);
    var s0 := EnterCb(EmptyStore(flags), r);
    assert EnterCb(EmptyStore(flags), r') == s0 by {
      SameEntry(flags, r, r');
    }
    assert [r][..0] == [] && [r'][..0] == [];
    assert r'.ops[..|r.ops|] == r.ops;
    var s := EnterOpers(m, k, s0, r.id, r.ops);
    assert s == EnterBlocks(m, k, EmptyStore(flags), [r]);
    assert HoldsBlock(m, k, s, [r][0]);
    var s' := EnterOper(m, k, s, r.id, x);
    assert OperIds(r.ops)[|r.ops| - 1] == x.id;
    RepeatedLastIsCircle(s.next, s.cbs[r.id].ops, OperIds(r.ops));
    assert BlockAt(s', r.id) == None;
    ChainIsWalked(s.nextCb, s.ends, BlockIds([r]));
    assert BlockIds([r]) == [r.id];
    assert [r.id][..0] == [];
  }

  lemma SameEntry<S>(flags: set<Byte>, r: BlockRecord<S>, r': BlockRecord<S>)
    requires r' == r.(ops := r'.ops)
    ensures EnterCb(EmptyStore(flags), r') == EnterCb(EmptyStore(flags), r)
  {
    hide InsertAfter;
  }

  // ----- two records with one id -----

  function SlotAt<S>(s: seq<S>, i: nat, other: S): S {
    if i < |s| then s[i] else other
  }

  /** After two records of one operation: a slot holds what the second record lists there, else what
      the first does, else nothing; the attributes of both, and the flags named last. */
  lemma SecondOperRecord<S>(m: Machine, k: SlotKind<S>, r: OperRecord<S>, r': OperRecord<S>)
    requires r'.id == r.id
    requires |r.src| <= m.maxSrc && |r.dest| <= m.maxDest && |r.pred| <= m.maxPred
    requires |r'.src| <= m.maxSrc && |r'.dest| <= m.maxDest && |r'.pred| <= m.maxPred
    ensures var o := Entered(m, k, map[r.id := Entered(m, k, map[], r)], r');
      && o.id == r.id && o.opcode == r'.opcode && o.com == r'.com && o.attrs == r.attrs + r'.attrs
      && o.flags == (if r'.flags.Some? then r'.flags.value else if r.flags.Some? then r.flags.value else {})
      && |o.src| == m.maxSrc && |o.dest| == m.maxDest && |o.pred| == m.maxPred
      && (forall i :: 0 <= i < m.maxSrc ==> o.src[i] == SlotAt(r'.src, i, SlotAt(r.src, i, k.none)))
      && (forall i :: 0 <= i < m.maxDest ==> o.dest[i] == SlotAt(r'.dest, i, SlotAt(r.dest, i, k.none)))
      && (forall i :: 0 <= i < m.maxPred ==> o.pred[i] == SlotAt(r'.pred, i, SlotAt(r.pred, i, k.none)))
  {
    assert [] + r.attrs == r.attrs;
  }

  /** After two records of one block: the flows and attributes of both, the weight of the second and
      the flags named last. */
  lemma SecondBlockRecord<S>(s: Store<S>, r: BlockRecord<S>, r': BlockRecord<S>)
    requires r'.id == r.id && r.id !in s.cbs
    ensures var b := EnterCb(EnterCb(s, r), r').cbs[r.id];
      && b.flows == r.flows + r'.flows && b.attrs == r.attrs + r'.attrs && b.weight == r'.weight
      && b.flags == (if r'.flags.Some? then r'.flags.value else if r.flags.Some? then r.flags.value else {})
  {
    hide InsertAfter;
    assert [] + r.flows == r.flows && [] + r.attrs == r.attrs;
  }
}
