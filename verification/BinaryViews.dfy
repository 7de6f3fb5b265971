/** Operations whose slots hold operand objects, seen with the operands in place of the objects:
    building a function of objects and viewing it can be exchanged. */
module BinaryViews {
  import opened Collections
  import opened BinaryCodec
  import opened BinaryOper
  import opened BinaryBody
  import opened BinaryObjects

  // ----- the operands behind slots -----

  function ViewSlots<S>(k: SlotKind<S>, s: seq<S>): (v: Slots)
    ensures |v| == |s|
    ensures forall i :: 0 <= i < |s| ==> v[i] == k.value(s[i])
  {
    seq(|s|, i requires 0 <= i < |s| => k.value(s[i]))
  }

  function ViewAttr<S>(k: SlotKind<S>, a: Attribute<S>): Attr {
    Attr(a.name, ViewSlots(k, a.fields))
  }

  function ViewAttrs<S>(k: SlotKind<S>, attrs: seq<Attribute<S>>): (v: seq<Attr>)
    ensures |v| == |attrs|
    ensures forall i :: 0 <= i < |attrs| ==> v[i] == ViewAttr(k, attrs[i])
  {
    seq(|attrs|, i requires 0 <= i < |attrs| => ViewAttr(k, attrs[i]))
  }

  function ViewRecord<S>(k: SlotKind<S>, r: OperRecord<S>): Record {
    Record(r.id, r.opcode, r.com, ViewSlots(k, r.src), ViewSlots(k, r.dest), r.flags, ViewSlots(k, r.pred),
           ViewAttrs(k, r.attrs))
  }

  function ViewRecords<S>(k: SlotKind<S>, rs: seq<OperRecord<S>>): (v: seq<Record>)
    ensures |v| == |rs|
    ensures forall i :: 0 <= i < |rs| ==> v[i] == ViewRecord(k, rs[i])
  {
    seq(|rs|, i requires 0 <= i < |rs| => ViewRecord(k, rs[i]))
  }

  function ViewCbRecord<S>(k: SlotKind<S>, r: BlockRecord<S>): CbRec {
    CbRecord(r.id, r.flags, r.weight, r.flows, ViewAttrs(k, r.attrs), ViewRecords(k, r.ops))
  }

  function ViewCbRecords<S>(k: SlotKind<S>, rs: seq<BlockRecord<S>>): (v: seq<CbRec>)
    ensures |v| == |rs|
    ensures forall i :: 0 <= i < |rs| ==> v[i] == ViewCbRecord(k, rs[i])
  {
    seq(|rs|, i requires 0 <= i < |rs| => ViewCbRecord(k, rs[i]))
  }

  function ViewOper<S>(k: SlotKind<S>, o: Operation<S>): Oper {
    Oper(o.id, o.opcode, o.com, ViewSlots(k, o.src), ViewSlots(k, o.dest), o.flags, ViewSlots(k, o.pred),
         ViewAttrs(k, o.attrs))
  }

  function ViewOpers<S>(k: SlotKind<S>, ops: seq<Operation<S>>): (v: seq<Oper>)
    ensures |v| == |ops|
    ensures forall i :: 0 <= i < |ops| ==> v[i] == ViewOper(k, ops[i])
  {
    seq(|ops|, i requires 0 <= i < |ops| => ViewOper(k, ops[i]))
  }

  function ViewCb<S>(k: SlotKind<S>, cb: Block<S>): Cb {
    Cb(cb.id, cb.flags, cb.weight, cb.flows, ViewAttrs(k, cb.attrs), ViewOpers(k, cb.ops))
  }

  function ViewCbs<S>(k: SlotKind<S>, cbs: seq<Block<S>>): (v: seq<Cb>)
    ensures |v| == |cbs|
    ensures forall i :: 0 <= i < |cbs| ==> v[i] == ViewCb(k, cbs[i])
  {
    seq(|cbs|, i requires 0 <= i < |cbs| => ViewCb(k, cbs[i]))
  }

  ghost function ViewCbObject<S>(k: SlotKind<S>, b: CbObject<S>): CbObject<Slot> {
    CbObject(b.flags, b.weight, b.flows, ViewAttrs(k, b.attrs), b.ops)
  }

  ghost function ViewStore<S>(k: SlotKind<S>, s: Store<S>): Store<Slot> {
    Store(map id | id in s.opers :: ViewOper(k, s.opers[id]), s.next,
            map id | id in s.cbs :: ViewCbObject(k, s.cbs[id]), s.nextCb, s.ends, s.flags)
  }

  // ----- building objects and viewing their operands can be exchanged -----

  lemma ViewOverlay<S>(k: SlotKind<S>, s: seq<S>, base: seq<S>)
    ensures ViewSlots(k, Overlay(s, base)) == Overlay(ViewSlots(k, s), ViewSlots(k, base))
  {
    var v, w := ViewSlots(k, Overlay(s, base)), Overlay(ViewSlots(k, s), ViewSlots(k, base));
    assert |v| == |w|;
    assert forall i :: 0 <= i < |v| ==> v[i] == w[i];
  }

  lemma ViewAttrsConcat<S>(k: SlotKind<S>, a: seq<Attribute<S>>, b: seq<Attribute<S>>)
    ensures ViewAttrs(k, a + b) == ViewAttrs(k, a) + ViewAttrs(k, b)
  {
    hide ViewAttr;
  }

  lemma ViewApply<S>(k: SlotKind<S>, base: Operation<S>, r: OperRecord<S>)
    ensures ViewOper(k, Apply(base, r)) == Apply(ViewOper(k, base), ViewRecord(k, r))
  {
    hide Overlay, ViewAttr;
    ViewOverlay(k, r.src, base.src);
    ViewOverlay(k, r.dest, base.dest);
    ViewOverlay(k, r.pred, base.pred);
    ViewAttrsConcat(k, base.attrs, r.attrs);
  }

  lemma ViewBlank<S>(m: Machine, k: SlotKind<S>, id: int)
    requires k.value(k.none) == None
    ensures ViewOper(k, BlankOper(m, k.none, id)) == BlankOper(m, VALUES.none, id)
  {
    var o := BlankOper(m, k.none, id);
    assert ViewSlots(k, o.src) == seq(m.maxSrc, _ => VALUES.none);
    assert ViewSlots(k, o.dest) == seq(m.maxDest, _ => VALUES.none);
    assert ViewSlots(k, o.pred) == seq(m.maxPred, _ => VALUES.none);
    assert ViewAttrs(k, o.attrs) == [];
  }

  lemma ViewFlagsFor<S>(m: Machine, k: SlotKind<S>, o: Operation<S>)
    ensures Predicated(VALUES, ViewOper(k, o)) <==> Predicated(k, o)
    ensures FlagsFor(m, VALUES, ViewOper(k, o)) == FlagsFor(m, k, o)
  {
    hide ViewAttr;
  }

  lemma ViewEnterCb<S>(k: SlotKind<S>, s: Store<S>, r: BlockRecord<S>)
    ensures ViewStore(k, EnterCb(s, r)) == EnterCb(ViewStore(k, s), ViewCbRecord(k, r))
  {
    hide InsertAfter, ViewOper, ViewAttr, ViewRecord;
    var base := if r.id in s.cbs then s.cbs[r.id] else CbObject({}, [], [], [], NO_ENDS);
    ViewAttrsConcat(k, base.attrs, r.attrs);
    assert ViewAttrs(k, []) == [];
    var v, w := ViewStore(k, EnterCb(s, r)), EnterCb(ViewStore(k, s), ViewCbRecord(k, r));
    assert v.cbs == w.cbs;
    assert v.opers == w.opers;
  }

  lemma ViewEntered<S>(m: Machine, k: SlotKind<S>, s: Store<S>, r: OperRecord<S>)
    requires k.value(k.none) == None
    ensures ViewOper(k, Entered(m, k, s.opers, r)) == Entered(m, VALUES, ViewStore(k, s).opers, ViewRecord(k, r))
  {
    hide Apply, ViewOper, ViewAttr, BlankOper, ViewCbObject;
    ViewApply(k, if r.id in s.opers then s.opers[r.id] else BlankOper(m, k.none, r.id), r);
    ViewBlank(m, k, r.id);
  }

  lemma ViewEnterOper<S>(m: Machine, k: SlotKind<S>, s: Store<S>, cb: int, r: OperRecord<S>)
    requires k.value(k.none) == None && cb in s.cbs
    ensures ViewStore(k, EnterOper(m, k, s, cb, r)) == EnterOper(m, VALUES, ViewStore(k, s), cb, ViewRecord(k, r))
  {
    hide InsertAfter, ViewOper, ViewAttr, Entered, FlagsFor, Predicated;
    var o := Entered(m, k, s.opers, r);
    ViewEntered(m, k, s, r);
    ViewFlagsFor(m, k, o);
    var v := ViewStore(k, EnterOper(m, k, s, cb, r));
    var w := EnterOper(m, VALUES, ViewStore(k, s), cb, ViewRecord(k, r));
    assert v.opers == w.opers;
    assert v.cbs == w.cbs;
  }

  lemma {:induction false} ViewEnterOpers<S>(m: Machine, k: SlotKind<S>, s: Store<S>, cb: int, rs: seq<OperRecord<S>>)
    requires k.value(k.none) == None && cb in s.cbs
    ensures ViewStore(k, EnterOpers(m, k, s, cb, rs)) ==
            EnterOpers(m, VALUES, ViewStore(k, s), cb, ViewRecords(k, rs))
  {
    hide EnterOper, ViewOper, ViewRecord, ViewCbObject;
    if rs != [] {
      var n := |rs| - 1;
      ViewEnterOpers(m, k, s, cb, rs[..n]);
      ViewEnterOper(m, k, EnterOpers(m, k, s, cb, rs[..n]), cb, rs[n]);
      assert ViewRecords(k, rs)[..n] == ViewRecords(k, rs[..n]);
    }
  }

  lemma {:induction false} ViewEnterBlocks<S>(m: Machine, k: SlotKind<S>, flags: set<Byte>, rs: seq<BlockRecord<S>>)
    requires k.value(k.none) == None
    ensures ViewStore(k, EnterBlocks(m, k, EmptyStore(flags), rs)) ==
            EnterBlocks(m, VALUES, EmptyStore(flags), ViewCbRecords(k, rs))
  {
    hide EnterOpers, EnterCb, ViewOper, ViewAttr, ViewCbObject, ViewRecord;
    if rs != [] {
      var n := |rs| - 1;
      var s, r := EnterBlocks(m, k, EmptyStore(flags), rs[..n]), rs[n];
      ViewEnterBlocks(m, k, flags, rs[..n]);
      ViewEnterCb(k, s, r);
      ViewEnterOpers(m, k, EnterCb(s, r), r.id, r.ops);
      assert ViewCbRecords(k, rs)[..n] == ViewCbRecords(k, rs[..n]);
    }
  }

  lemma {:induction false} ViewLookup<S>(k: SlotKind<S>, s: Store<S>, ids: seq<int>)
    ensures Lookup(ViewStore(k, s).opers, ids) ==
            match Lookup(s.opers, ids) case None => None case Some(ops) => Some(ViewOpers(k, ops))
  {
    hide ViewOper, ViewCbObject;
    if ids != [] {
      var n := |ids| - 1;
      ViewLookup(k, s, ids[..n]);
      var found := Lookup(s.opers, ids[..n]);
      if found.Some? && ids[n] in s.opers {
        var o := s.opers[ids[n]];
        assert ViewOpers(k, found.value + [o]) == ViewOpers(k, found.value) + [ViewOper(k, o)];
      }
    }
  }

  lemma ViewBlockAt<S>(k: SlotKind<S>, s: Store<S>, id: int)
    ensures BlockAt(ViewStore(k, s), id) ==
            match BlockAt(s, id) case None => None case Some(cb) => Some(ViewCb(k, cb))
  {
    hide Walk, Lookup, ViewOper, ViewAttr;
    if id in s.cbs {
      var ids := Walk(s.next, s.cbs[id].ops.first, {});
      if ids.Some? {
        ViewLookup(k, s, ids.value);
      }
    }
  }

  lemma {:induction false} ViewBlocksAt<S>(k: SlotKind<S>, s: Store<S>, ids: seq<int>)
    ensures BlocksAt(ViewStore(k, s), ids) ==
            match BlocksAt(s, ids) case None => None case Some(cbs) => Some(ViewCbs(k, cbs))
  {
    hide BlockAt, ViewCb, ViewStore;
    if ids != [] {
      var n := |ids| - 1;
      ViewBlocksAt(k, s, ids[..n]);
      ViewBlockAt(k, s, ids[n]);
      var found, cb := BlocksAt(s, ids[..n]), BlockAt(s, ids[n]);
      if found.Some? && cb.Some? {
        assert ViewCbs(k, found.value + [cb.value]) == ViewCbs(k, found.value) + [ViewCb(k, cb.value)];
      }
    }
  }

  lemma ViewCollected<S>(k: SlotKind<S>, s: Store<S>)
    ensures Collected(ViewStore(k, s)) ==
            match Collected(s) case None => None case Some(cbs) => Some(ViewCbs(k, cbs))
  {
    hide Walk, BlocksAt, ViewCb;
    var ids := Walk(s.nextCb, s.ends.first, {});
    if ids.Some? {
      ViewBlocksAt(k, s, ids.value);
    }
  }
}
