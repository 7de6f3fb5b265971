/** Blocks and whole functions on streams.  All slots of a function, those of its attributes, of
    its blocks' attributes and of its operations, draw their operand objects from one pool. */
module FunctionStreams {
  import opened Collections
  import opened BinaryCodec
  import opened BinaryOperand
  import opened Flags
  import opened BinaryOper
  import opened BinaryBody
  import opened BinaryInterning
  import opened BinaryObjects
  import opened BinaryViews
  import opened BinaryFunction
  import opened BinaryStreams

  // ----- what is read -----

  type Cell = OperandCell?
  type CellCbRecord = BlockRecord<Cell>
  type CellFunction = Fn<Cell>

  function ViewFn<S>(k: SlotKind<S>, fn: Fn<S>): Function {
    Function(fn.name, fn.flags, fn.weight, ViewAttrs(k, fn.attrs), ViewCbs(k, fn.cbs))
  }

  function ViewFnRecord<S>(k: SlotKind<S>, r: FnRecord<S>): FnRecord<Slot> {
    FnRecord(r.name, r.flags, r.weight, ViewAttrs(k, r.attrs), ViewCbRecords(k, r.cbs))
  }

  /** The operand objects in the slots of a block record, and of several. */
  ghost function CbObjects(cb: CellCbRecord): seq<OperandCell> {
    AttrObjects(cb.attrs) + OpersObjects(cb.ops)
  }

  ghost function CbsObjects(cbs: seq<CellCbRecord>): seq<OperandCell> {
    if cbs == [] then [] else CbsObjects(cbs[..|cbs| - 1]) + CbObjects(cbs[|cbs| - 1])
  }

  ghost function OperationObjects(o: Operation<Cell>): seq<OperandCell> {
    Objects(o.src) + (Objects(o.dest) + (Objects(o.pred) + AttrObjects(o.attrs)))
  }

  ghost function OperationsObjects(ops: seq<Operation<Cell>>): seq<OperandCell> {
    if ops == [] then [] else OperationsObjects(ops[..|ops| - 1]) + OperationObjects(ops[|ops| - 1])
  }

  ghost function BlocksObjects(cbs: seq<Block<Cell>>): seq<OperandCell> {
    if cbs == [] then []
    else
      var cb := cbs[|cbs| - 1];
      BlocksObjects(cbs[..|cbs| - 1]) + (AttrObjects(cb.attrs) + OperationsObjects(cb.ops))
  }

  /** The operand objects in all slots of a function. */
  ghost function FunctionObjects(fn: CellFunction): seq<OperandCell> {
    AttrObjects(fn.attrs) + BlocksObjects(fn.cbs)
  }

  lemma NoCbs()
    ensures ViewCbRecords(CELLS, []) == [] && CbsObjects([]) == []
  {
  }

  lemma CbsSnoc(cbs: seq<CellCbRecord>, cb: CellCbRecord)
    ensures ViewCbRecords(CELLS, cbs + [cb]) == ViewCbRecords(CELLS, cbs) + [ViewCbRecord(CELLS, cb)]
    ensures CbsObjects(cbs + [cb]) == CbsObjects(cbs) + CbObjects(cb)
  {
    hide ViewCbRecord;
    assert (cbs + [cb])[..|cbs|] == cbs;
  }

  // ----- records on their own keep their objects -----

  lemma {:induction false} NullsHoldNothing(s: CellSlots, n: nat)
    ensures Objects(s + seq(n, _ => CELLS.none)) == Objects(s)
  {
    var nulls: CellSlots := seq(n, _ => CELLS.none);
    if n == 0 {
      assert s + nulls == s;
    } else {
      var shorter: CellSlots := seq(n - 1, _ => CELLS.none);
      NullsHoldNothing(s, n - 1);
      assert (s + nulls)[..|s + nulls| - 1] == s + shorter;
    }
  }

  lemma OverlayObjects(s: CellSlots, n: nat)
    ensures Objects(Overlay(s, seq(n, _ => CELLS.none))) == Objects(s)
  {
    hide Objects;
    var base: CellSlots := seq(n, _ => CELLS.none);
    if |s| <= n {
      NullsHoldNothing(s, n - |s|);
      assert base[|s|..] == seq(n - |s|, _ => CELLS.none);
    }
  }

  lemma PlainObjects(m: Machine, r: CellRecord)
    ensures OperationObjects(PlainOper(m, CELLS, r)) == RecordObjects(r)
  {
    hide Overlay, Objects, AttrObjects;
    OverlayObjects(r.src, m.maxSrc);
    OverlayObjects(r.dest, m.maxDest);
    OverlayObjects(r.pred, m.maxPred);
    assert [] + r.attrs == r.attrs;
  }

  lemma {:induction false} PlainOpersObjects(m: Machine, rs: seq<CellRecord>)
    ensures OperationsObjects(PlainOpers(m, CELLS, rs)) == OpersObjects(rs)
  {
    hide PlainOper, OperationObjects, RecordObjects;
    if rs != [] {
      var n := |rs| - 1;
      PlainOpersObjects(m, rs[..n]);
      PlainObjects(m, rs[n]);
      assert PlainOpers(m, CELLS, rs)[..n] == PlainOpers(m, CELLS, rs[..n]);
    }
  }

  lemma {:induction false} PlainBlocksObjects(m: Machine, rs: seq<CellCbRecord>)
    ensures BlocksObjects(PlainBlocks(m, CELLS, rs)) == CbsObjects(rs)
  {
    hide PlainOpers, OperationsObjects, OpersObjects, AttrObjects, PlainFlags;
    if rs != [] {
      var n := |rs| - 1;
      PlainBlocksObjects(m, rs[..n]);
      PlainOpersObjects(m, rs[n].ops);
      assert PlainBlocks(m, CELLS, rs)[..n] == PlainBlocks(m, CELLS, rs[..n]);
    }
  }

  lemma {:induction false} ViewIds(rs: seq<CellCbRecord>)
    ensures BlockIds(ViewCbRecords(CELLS, rs)) == BlockIds(rs) && AllOperIds(ViewCbRecords(CELLS, rs)) == AllOperIds(rs)
  {
    hide ViewRecord, ViewAttr;
    if rs != [] {
      var n := |rs| - 1;
      ViewIds(rs[..n]);
      assert ViewCbRecords(CELLS, rs)[..n] == ViewCbRecords(CELLS, rs[..n]);
      assert ViewCbRecords(CELLS, rs)[n] == ViewCbRecord(CELLS, rs[n]);
      ViewOperIds(rs[n].ops);
    }
  }

  lemma ViewOperIds(rs: seq<CellRecord>)
    ensures OperIds(ViewRecords(CELLS, rs)) == OperIds(rs)
  {
    assert forall i :: 0 <= i < |rs| ==> ViewRecords(CELLS, rs)[i].id == rs[i].id;
  }

  /** From records with distinct ids, the function's slots hold exactly the objects of the records. */
  lemma AssembledObjects(m: Machine, r: FnRecord<Cell>)
    requires DistinctIds(r.cbs) && Assemble(m, CELLS, r).Some?
    ensures FunctionObjects(Assemble(m, CELLS, r).value) == AttrObjects(r.attrs) + CbsObjects(r.cbs)
  {
    hide DistinctIds, EnterBlocks, Collected, DefinesOk, LargestIdGiven, LeafFlags;
    hide AttrObjects, BlocksObjects, PlainBlock;
    DistinctIdsCollect(m, CELLS, r.flags, r.cbs);
    PlainBlocksObjects(m, r.cbs);
  }

  /** Assembling objects and viewing their operands can be exchanged. */
  lemma ViewAssemble(m: Machine, r: FnRecord<Cell>)
    ensures Assemble(m, VALUES, ViewFnRecord(CELLS, r)) ==
            match Assemble(m, CELLS, r) case None => None case Some(fn) => Some(ViewFn(CELLS, fn))
  {
    hide EnterBlocks, Collected, DefinesOk, LargestIdGiven, HasCall, ViewCb, ViewAttr, ViewCbRecord, ViewStore;
    var s := EnterBlocks(m, CELLS, EmptyStore(r.flags), r.cbs);
    ViewEnterBlocks(m, CELLS, r.flags, r.cbs);
    ViewCollected(CELLS, s);
    ViewKeepsFlags(s);
    ViewLargestId(r.attrs);
    if Collected(s).Some? {
      ViewChecks(m, Collected(s).value);
    }
  }

  lemma ViewKeepsFlags(s: Store<Cell>)
    ensures ViewStore(CELLS, s).flags == s.flags
  {
  }

  lemma ViewLargestId(attrs: seq<CellAttr>)
    ensures LargestIdGiven(VALUES, ViewAttrs(CELLS, attrs)) <==> LargestIdGiven(CELLS, attrs)
  {
    assert forall i :: 0 <= i < |attrs| ==> ViewAttrs(CELLS, attrs)[i] == ViewAttr(CELLS, attrs[i]);
  }

  lemma ViewDefine(m: Machine, o: Operation<Cell>)
    ensures DefineOk(m, VALUES, ViewOper(CELLS, o)) <==> DefineOk(m, CELLS, o)
  {
  }

  lemma ViewChecks(m: Machine, cbs: seq<Block<Cell>>)
    ensures DefinesOk(m, VALUES, ViewCbs(CELLS, cbs)) <==> DefinesOk(m, CELLS, cbs)
    ensures HasCall(m, ViewCbs(CELLS, cbs)) <==> HasCall(m, cbs)
  {
    hide DefineOk, ViewAttr;
    var v := ViewCbs(CELLS, cbs);
    forall i, j | 0 <= i < |cbs| && 0 <= j < |cbs[i].ops|
      ensures v[i].ops[j].opcode == cbs[i].ops[j].opcode
      ensures DefineOk(m, VALUES, v[i].ops[j]) <==> DefineOk(m, CELLS, cbs[i].ops[j])
    {
      ViewDefine(m, cbs[i].ops[j]);
    }
  }

  // ----- reader -----

  method ReadHeader(r: OperReader) returns (ok: bool, h: Header)
    modifies r.input
    ensures ok <==> DecodeHeader(r.t, old(r.input.rest)).Got?
    ensures ok ==> DecodeHeader(r.t, old(r.input.rest)) == Got(h, r.input.rest)
  {
    hide DecodeInt, DecodeString, DecodeFlags, PeekSpecial;
    h := Header(0, None, [], 0, 0, 0);
    if !PeekSpecial(r.input.rest) {
      return false, h;
    }
    var id, flags, weight, nf, na, no;
    ok, id := r.input.ReadInt();
    if !ok || id < 0 {
      return false, h;
    }
    ok, flags := r.ReadFlags(CB_FLAGS);
    if !ok {
      return;
    }
    ok, weight := r.input.ReadString();
    if !ok {
      return;
    }
    ok, nf := r.input.ReadInt();
    if !ok {
      return;
    }
    ok, na := r.input.ReadInt();
    if !ok {
      return;
    }
    ok, no := r.input.ReadInt();
    if !ok {
      return;
    }
    h := Header(id, flags, weight, nf, na, no);
  }

  /** One turn of the flow loop. */
  lemma FlowsStep(s: seq<Flow>, n: int, bs: seq<Byte>)
    ensures n <= 0 ==> Resume(s, DecodeFlows(n, bs)) == Got(s, bs)
    ensures n > 0 ==>
              var first := DecodeFlow(bs);
              Resume(s, DecodeFlows(n, bs)) ==
              if first.Fail? then Fail else Resume(s + [first.value], DecodeFlows(n - 1, first.rest))
  {
    hide DecodeFlow;
    ResumeEnd(s, bs);
    var first := DecodeFlow(bs);
    if n > 0 && first.Got? {
      ResumeCons(s, first.value, DecodeFlows(n - 1, first.rest));
    }
  }

  method ReadFlow(input: Input) returns (ok: bool, f: Flow)
    modifies input
    ensures ok <==> DecodeFlow(old(input.rest)).Got?
    ensures ok ==> DecodeFlow(old(input.rest)) == Got(f, input.rest)
  {
    hide DecodeInt, DecodeString;
    f := Flow(0, 0, []);
    var cc, dst, weight;
    ok, cc := input.ReadInt();
    if !ok {
      return;
    }
    ok, dst := input.ReadInt();
    if !ok {
      return;
    }
    ok, weight := input.ReadString();
    f := Flow(cc, dst, weight);
  }

  method ReadFlows(input: Input, n: int) returns (ok: bool, flows: seq<Flow>)
    modifies input
    ensures ok <==> DecodeFlows(n, old(input.rest)).Got?
    ensures ok ==> DecodeFlows(n, old(input.rest)) == Got(flows, input.rest)
  {
    hide DecodeFlow, DecodeFlows, Resume;
    ok, flows := true, [];
    ghost var all := DecodeFlows(n, input.rest);
    ResumeNothing(all);
    var i := 0;
    while i < n
      invariant n > 0 ==> i <= n
      invariant all == Resume(flows, DecodeFlows(n - i, input.rest))
    {
      FlowsStep(flows, n - i, input.rest);
      var f;
      ok, f := ReadFlow(input);
      if !ok {
        return;
      }
      flows, i := flows + [f], i + 1;
    }
    FlowsStep(flows, n - i, input.rest);
  }

  /** A block record: its header, flows, attributes and operation records. */
  method ReadCb(r: OperReader) returns (ok: bool, cb: CellCbRecord)
    requires r.pool.Valid() && r.pool.Holds(r.t)
    modifies r.pool, r.input
    ensures r.pool.Valid()
    ensures ok <==> DecodeCb(r.m, r.t, old(r.input.rest)).Got?
    ensures ok ==> DecodeCb(r.m, r.t, old(r.input.rest)) == Got(ViewCbRecord(CELLS, cb), r.input.rest)
    ensures ok ==> Takes(CbObjects(cb), old(r.pool.handed), r.pool.handed)
  {
    hide DecodeHeader, DecodeFlows, DecodeAttrs, DecodeOpers, Takes, AttrObjects, OpersObjects, ViewAttr, ViewRecord;
    var h, flows, attrs, ops;
    cb := CbRecord(0, None, [], [], [], []);
    ok, h := ReadHeader(r);
    if !ok {
      return;
    }
    ok, flows := ReadFlows(r.input, h.flows);
    if !ok {
      return;
    }
    ghost var h0 := r.pool.handed;
    ok, attrs := r.ReadAttrs(h.attrs);
    if !ok {
      return;
    }
    ghost var h1 := r.pool.handed;
    TakesExactly(h0, AttrObjects(attrs));
    ok, ops := r.ReadOpers(Count(h.ops));
    if !ok {
      return;
    }
    TakesBoth(AttrObjects(attrs), OpersObjects(ops), h0, h1, r.pool.handed);
    cb := CbRecord(h.id, h.flags, h.weight, flows, attrs, ops);
  }

  /** One turn of the block loop, and the closing word. */
  lemma BodyTurn(m: Machine, t: Tables, s: seq<CbRec>, n: nat, bs: seq<Byte>)
    ensures n == 0 ==>
              var end := DecodeString(bs);
              Resume(s, DecodeBody(m, t, n, bs)) == if end.Got? && end.value == END then Got(s, end.rest) else Fail
    ensures n > 0 ==>
              var first := DecodeCb(m, t, bs);
              Resume(s, DecodeBody(m, t, n, bs)) ==
              if first.Fail? then Fail else Resume(s + [first.value], DecodeBody(m, t, n - 1, first.rest))
  {
    hide DecodeCb, DecodeString;
    if n == 0 {
      var end := DecodeString(bs);
      if end.Got? && end.value == END {
        ResumeEnd(s, end.rest);
      }
    } else {
      var first := DecodeCb(m, t, bs);
      if first.Got? {
        ResumeCons(s, first.value, DecodeBody(m, t, n - 1, first.rest));
      }
    }
  }

  /** The objects of the function that is being read. */
  class FunctionReader {
    const r: OperReader
    var store: Store<Cell>

    constructor (r: OperReader, flags: set<Byte>)
      ensures this.r == r && store == EmptyStore(flags)
    {
      this.r := r;
      store := EmptyStore(flags);
    }

    /** Finds or makes the operation objects of a block's records and links them in. */
    method EnterAll(cb: int, ops: seq<CellRecord>)
      requires cb in store.cbs
      modifies this`store
      ensures store == EnterOpers(r.m, CELLS, old(store), cb, ops)
    {
      for i := 0 to |ops|
        invariant cb in store.cbs && store == EnterOpers(r.m, CELLS, old(store), cb, ops[..i])
      {
        hide EnterOper;
        assert ops[..i + 1][..i] == ops[..i];
        store := EnterOper(r.m, CELLS, store, cb, ops[i]);
      }
      assert ops[..|ops|] == ops;
    }

    /** The blocks of a function and the closing word: the records that are read, and the objects
        they leave.  No two slots of the records share an operand object, nor do they share one
        with anything read before. */
    method ReadBody(n: nat) returns (ok: bool, ghost cbs: seq<CellCbRecord>)
      requires r.pool.Valid() && r.pool.Holds(r.t)
      modifies this`store, r.pool, r.input
      ensures r.pool.Valid()
      ensures ok <==> DecodeBody(r.m, r.t, n, old(r.input.rest)).Got?
      ensures ok ==> DecodeBody(r.m, r.t, n, old(r.input.rest)) == Got(ViewCbRecords(CELLS, cbs), r.input.rest)
      ensures ok ==> Takes(CbsObjects(cbs), old(r.pool.handed), r.pool.handed)
      ensures ok ==> store == EnterBlocks(r.m, CELLS, old(store), cbs)
    {
      hide DecodeCb, DecodeBody, DecodeString, Takes, Resume, ViewCbRecord, CbObjects, CbsObjects, EnterOpers, EnterCb;
      ok, cbs := true, [];
      ghost var start, before := DecodeBody(r.m, r.t, n, r.input.rest), r.pool.handed;
      NoCbs();
      TakesNothing(before);
      ResumeNothing(start);
      for i := 0 to n
        invariant |cbs| == i && r.pool.Valid()
        invariant Resume(ViewCbRecords(CELLS, cbs), DecodeBody(r.m, r.t, n - i, r.input.rest)) == start
        invariant Takes(CbsObjects(cbs), before, r.pool.handed)
        invariant store == EnterBlocks(r.m, CELLS, old(store), cbs)
      {
        BodyTurn(r.m, r.t, ViewCbRecords(CELLS, cbs), n - i, r.input.rest);
        ghost var handed := r.pool.handed;
        var cb;
        ok, cb := ReadCb(r);
        if !ok {
          return;
        }
        TakesBoth(CbsObjects(cbs), CbObjects(cb), before, handed, r.pool.handed);
        CbsSnoc(cbs, cb);
        store := EnterCb(store, cb);
        EnterAll(cb.id, cb.ops);
        assert (cbs + [cb])[..i] == cbs;
        cbs := cbs + [cb];
      }
      BodyTurn(r.m, r.t, ViewCbRecords(CELLS, cbs), 0, r.input.rest);
      var end;
      ok, end := r.input.ReadString();
      ok := ok && end == END;
    }

    /** The traversals after reading: they do not return from a circle, stop at a frame size that is
        no integer, and set or clear the leaf flag. */
    method Finish(h: FnHeader, attrs: seq<CellAttr>, ghost rec: FnRecord<Cell>) returns (ok: bool, fn: CellFunction)
      requires store == EnterBlocks(r.m, CELLS, EmptyStore(rec.flags), rec.cbs)
      requires rec.name == h.name && rec.weight == h.weight && rec.attrs == attrs
      ensures Assemble(r.m, CELLS, rec) == if ok then Some(fn) else None
    {
      hide EnterBlocks, Collected, DefinesOk, LargestIdGiven;
      fn := Function(h.name, {}, h.weight, attrs, []);
      var cbs := Collected(store);
      if !LargestIdGiven(CELLS, attrs) || cbs.None? || !DefinesOk(r.m, CELLS, cbs.value) {
        return false, fn;
      }
      return true, Function(h.name, LeafFlags(r.m, store.flags, cbs.value), h.weight, attrs, cbs.value);
    }
  }

  method ReadFnHeader(input: Input) returns (ok: bool, h: FnHeader)
    modifies input
    ensures ok <==> DecodeFnHeader(old(input.rest)).Got?
    ensures ok ==> DecodeFnHeader(old(input.rest)) == Got(h, input.rest)
  {
    hide DecodeInt, DecodeString;
    h := FnHeader([], 0, [], 0, 0, 0, 0);
    var name, flagId, weight, ns, no, na, nc;
    ok, name := input.ReadString();
    if !ok {
      return;
    }
    ok, flagId := input.ReadInt();
    if !ok {
      return;
    }
    ok, weight := input.ReadString();
    if !ok {
      return;
    }
    ok, ns := input.ReadInt();
    if !ok {
      return;
    }
    ok, no := input.ReadInt();
    if !ok {
      return;
    }
    ok, na := input.ReadInt();
    if !ok {
      return;
    }
    ok, nc := input.ReadInt();
    h := FnHeader(name, flagId, weight, ns, no, na, nc);
  }

  /** The flags behind an id of the string table. */
  method FlagsNamedBy(order: seq<Byte>, strings: seq<Text>, id: int) returns (ok: bool, flags: set<Byte>)
    ensures ok <==> NamedFlags(order, strings, id).Some?
    ensures ok ==> NamedFlags(order, strings, id) == Some(flags)
  {
    hide FlagSet;
    ok, flags := 0 <= id <= |strings|, {};
    if ok && id > 0 {
      ok, flags := StringToFlags(order, strings[id - 1]);
    }
  }

  /** A whole function, for all inputs.  When no operation or block id is repeated, no two of its
      slots share an operand object. */
  method ReadFunction(input: Input, m: Machine) returns (ok: bool, fn: CellFunction)
    modifies input
    ensures ok <==> DecodeFunction(m, old(input.rest)).Got?
    ensures ok ==> DecodeFunction(m, old(input.rest)) == Got(ViewFn(CELLS, fn), input.rest)
    ensures ok ==> ParseFunction(m, old(input.rest)).Got?
    ensures ok && DistinctIds(ParseFunction(m, old(input.rest)).value.cbs) ==> Distinct(FunctionObjects(fn))
  {
    hide DecodeFnHeader, DecodeStrings, DecodeOperands, DecodeAttrs, DecodeBody, NamedFlags, Assemble, DistinctIds;
    hide AttrObjects, CbsObjects, ViewAttr, ViewCbRecord, FunctionObjects, ViewFn;
    fn := Function([], {}, [], [], []);
    var h, strings, flags, operands, attrs;
    ok, h := ReadFnHeader(input);
    if !ok {
      return;
    }
    ok, strings := ReadStrings(input, h.strings);
    if !ok {
      return;
    }
    ok, flags := FlagsNamedBy(FUNC_FLAGS, strings, h.flagId);
    if !ok {
      return;
    }
    ok, operands := ReadOperands(input, m.names, h.operands);
    if !ok {
      return;
    }
    var t := Tables(strings, operands);
    var pool := new OperandPool(operands);
    var r := new OperReader(input, pool, m, t);
    ok, attrs := r.ReadAttrs(h.attrs);
    if !ok {
      return;
    }
    TakesExactly([], AttrObjects(attrs));
    ghost var h1 := pool.handed;
    assert h1 == AttrObjects(attrs);
    var reader := new FunctionReader(r, flags);
    ghost var cbs;
    ok, cbs := reader.ReadBody(Count(h.cbs));
    if !ok {
      return;
    }
    TakesBoth(AttrObjects(attrs), CbsObjects(cbs), [], h1, pool.handed);
    ghost var rec := FnRecord(h.name, flags, h.weight, attrs, cbs);
    assert ParseFunction(m, old(input.rest)) == Got(ViewFnRecord(CELLS, rec), input.rest);
    ok, fn := reader.Finish(h, attrs, rec);
    ViewAssemble(m, rec);
    UnsharedWhenDistinct(m, rec);
  }

  lemma UnsharedWhenDistinct(m: Machine, rec: FnRecord<Cell>)
    requires Distinct(AttrObjects(rec.attrs) + CbsObjects(rec.cbs))
    ensures DistinctIds(ViewCbRecords(CELLS, rec.cbs)) && Assemble(m, CELLS, rec).Some? ==>
              Distinct(FunctionObjects(Assemble(m, CELLS, rec).value))
  {
    hide ViewCbRecords, AttrObjects, CbsObjects, FunctionObjects, Assemble;
    ViewIds(rec.cbs);
    if DistinctIds(rec.cbs) && Assemble(m, CELLS, rec).Some? {
      AssembledObjects(m, rec);
    }
  }

  // ----- writer -----

  method PrintFlows(out: Output, flows: seq<Flow>)
    requires ValidFlows(flows)
    modifies out
    ensures out.bytes == old(out.bytes) + EncodeFlows(flows)
  {
    for i := 0 to |flows|
      invariant out.bytes + EncodeFlows(flows[i..]) == old(out.bytes) + EncodeFlows(flows)
    {
      hide EncodeInt, EncodeString, IsText;
      var f := flows[i];
      assert flows[i..][1..] == flows[i + 1..];
      ghost var b0, tail := out.bytes, EncodeFlows(flows[i + 1..]);
      out.WriteInt(f.cc);
      out.WriteInt(f.dst);
      out.WriteString(f.weight);
      Assoc(b0, EncodeInt(f.cc), EncodeInt(f.dst) + (EncodeString(f.weight) + tail));
      Assoc(b0 + EncodeInt(f.cc), EncodeInt(f.dst), EncodeString(f.weight) + tail);
      Assoc(b0 + EncodeInt(f.cc) + EncodeInt(f.dst), EncodeString(f.weight), tail);
    }
    assert out.bytes + [] == out.bytes;
  }

  method PrintHeader(out: Output, t: Tables, cb: Cb)
    requires ValidTables(t) && 0 <= cb.id <= MAX_INT
    requires |cb.flows| <= MAX_INT && |cb.attrs| <= MAX_INT && |cb.ops| <= MAX_INT
    modifies out
    ensures out.bytes == old(out.bytes) + EncodeHeader(t, cb)
  {
    hide EncodeInt, EncodeString, EncodeSpecial;
    ghost var b0 := out.bytes;
    out.WriteIntSpecial(cb.id);
    ghost var b1 := out.bytes;
    out.WriteInt(FlagId(t, CbText(cb)));
    ghost var b2 := out.bytes;
    out.WriteString(cb.weight);
    ghost var b3 := out.bytes;
    out.WriteInt(|cb.flows|);
    ghost var b4 := out.bytes;
    out.WriteInt(|cb.attrs|);
    out.WriteInt(|cb.ops|);
    ghost var c5: seq<Byte> := EncodeInt(|cb.attrs|) + EncodeInt(|cb.ops|);
    ghost var c4: seq<Byte> := EncodeInt(|cb.flows|) + c5;
    ghost var c3: seq<Byte> := EncodeString(cb.weight) + c4;
    Assoc(b4, EncodeInt(|cb.attrs|), EncodeInt(|cb.ops|));
    Assoc(b3, EncodeInt(|cb.flows|), c5);
    Assoc(b2, EncodeString(cb.weight), c4);
    Assoc(b1, EncodeInt(FlagId(t, CbText(cb))), c3);
    Assoc(b0, EncodeSpecial(cb.id), EncodeInt(FlagId(t, CbText(cb))) + c3);
  }

  /** Writes one block; fails exactly when an operand is not in the table. */
  method PrintCb(w: OperWriter, m: Machine, cb: Cb) returns (ok: bool)
    requires ValidTables(w.t) && SizedCb(m, cb)
    modifies w.out
    ensures ok <==> CbKnown(w.t, cb)
    ensures ok ==> w.out.bytes == old(w.out.bytes) + EncodeCb(w.t, cb)
  {
    hide EncodeHeader, EncodeFlows, EncodeAttrs, EncodeOpers, ValidFlows, SizedOper, AttrsKnown, OperKnown, SizedAttrs;
    ghost var t, b0 := w.t, w.out.bytes;
    assert |cb.attrs| <= MAX_INT by {
      AttrCount(cb.attrs);
    }
    PrintHeader(w.out, w.t, cb);
    ghost var b1 := w.out.bytes;
    PrintFlows(w.out, cb.flows);
    ghost var b2 := w.out.bytes;
    ok := w.PrintAttrs(cb.attrs);
    if !ok {
      return;
    }
    ghost var b3 := w.out.bytes;
    ok := w.PrintOpers(m, cb.ops);
    if ok {
      Assoc(b2, EncodeAttrs(t, cb.attrs), EncodeOpers(t, cb.ops));
      Assoc(b1, EncodeFlows(cb.flows), EncodeAttrs(t, cb.attrs) + EncodeOpers(t, cb.ops));
      Assoc(b0, EncodeHeader(t, cb), EncodeFlows(cb.flows) + (EncodeAttrs(t, cb.attrs) + EncodeOpers(t, cb.ops)));
    }
  }

  lemma AttrCount(attrs: seq<Attr>)
    requires SizedAttrs(attrs)
    ensures |attrs| <= MAX_INT
  {
  }

  /** Writes the blocks and the closing word. */
  method PrintBody(w: OperWriter, m: Machine, cbs: seq<Cb>) returns (ok: bool)
    requires ValidTables(w.t) && forall i :: 0 <= i < |cbs| ==> SizedCb(m, cbs[i])
    modifies w.out
    ensures ok <==> CbsKnown(w.t, cbs)
    ensures ok ==> w.out.bytes == old(w.out.bytes) + EncodeBody(w.t, cbs)
  {
    hide EncodeCb, SizedCb, CbKnown, EncodeString;
    for i := 0 to |cbs|
      invariant forall j :: 0 <= j < i ==> CbKnown(w.t, cbs[j])
      invariant w.out.bytes + EncodeBody(w.t, cbs[i..]) == old(w.out.bytes) + EncodeBody(w.t, cbs)
    {
      assert cbs[i..][1..] == cbs[i + 1..];
      Assoc(w.out.bytes, EncodeCb(w.t, cbs[i]), EncodeBody(w.t, cbs[i + 1..]));
      ok := PrintCb(w, m, cbs[i]);
      if !ok {
        return;
      }
    }
    ok := true;
    w.out.WriteString(END);
  }

  method PrintFnHeader(out: Output, h: FnHeader)
    requires InRange(h.flagId) && InRange(h.strings) && InRange(h.operands) && InRange(h.attrs) && InRange(h.cbs)
    modifies out
    ensures out.bytes == old(out.bytes) + EncodeFnHeader(h)
  {
    hide EncodeInt, EncodeString;
    ghost var b0 := out.bytes;
    out.WriteString(h.name);
    ghost var b1 := out.bytes;
    out.WriteInt(h.flagId);
    ghost var b2 := out.bytes;
    out.WriteString(h.weight);
    ghost var b3 := out.bytes;
    out.WriteInt(h.strings);
    ghost var b4 := out.bytes;
    out.WriteInt(h.operands);
    ghost var b5 := out.bytes;
    out.WriteInt(h.attrs);
    out.WriteInt(h.cbs);
    ghost var c5: seq<Byte> := EncodeInt(h.attrs) + EncodeInt(h.cbs);
    ghost var c4: seq<Byte> := EncodeInt(h.operands) + c5;
    ghost var c3: seq<Byte> := EncodeInt(h.strings) + c4;
    ghost var c2: seq<Byte> := EncodeString(h.weight) + c3;
    Assoc(b5, EncodeInt(h.attrs), EncodeInt(h.cbs));
    Assoc(b4, EncodeInt(h.operands), c5);
    Assoc(b3, EncodeInt(h.strings), c4);
    Assoc(b2, EncodeString(h.weight), c3);
    Assoc(b1, EncodeInt(h.flagId), c2);
    Assoc(b0, EncodeString(h.name), EncodeInt(h.flagId) + c2);
  }

  /** Scans a function for its tables and writes it with them.  No operand is ever missing. */
  method PrintFunction(out: Output, m: Machine, fn: Function)
    requires SizedFunction(m, fn) && forall o :: o in TablesOf(fn).operands ==> IntsFit(o)
    modifies out
    ensures out.bytes == old(out.bytes) + EncodeFunction(fn)
  {
    hide Intern, IntsFit, EncodeFnHeader, EncodeStrings, EncodeOperands, EncodeAttrs, EncodeBody;
    hide SizedCb, ValidCbs, ValidAttr, AttrsKnown, CbsKnown, SizedAttrs, IsText, AllNames, AllOperands;
    var tables := new SymbolTables();
    tables.Build(fn);
    var t := Tables(tables.strings, tables.operands);
    OwnTables(m, fn);
    AttrCount(fn.attrs);
    ghost var b0 := out.bytes;
    var h := FnHeader(fn.name, FlagId(t, FnText(fn)), fn.weight, |t.strings|, |t.operands|, |fn.attrs|, |fn.cbs|);
    PrintFnHeader(out, h);
    ghost var b1 := out.bytes;
    PrintStrings(out, t.strings);
    ghost var b2 := out.bytes;
    forall i | 0 <= i < |t.operands|
      ensures IntsFit(t.operands[i])
    {
      assert t.operands[i] in t.operands;
    }
    PrintOperands(out, t.operands);
    ghost var b3 := out.bytes;
    var w := new OperWriter(out, t);
    var ok := w.PrintAttrs(fn.attrs);
    assert ok;
    ghost var b4 := out.bytes;
    ok := PrintBody(w, m, fn.cbs);
    assert ok;
    ghost var attrs: seq<Byte>, cbs: seq<Byte> := EncodeAttrs(t, fn.attrs), EncodeBody(t, fn.cbs);
    Assoc(b3, attrs, cbs);
    Assoc(b2, EncodeOperands(t.operands), attrs + cbs);
    Assoc(b1, EncodeStrings(t.strings), EncodeOperands(t.operands) + (attrs + cbs));
    Assoc(b0, EncodeFnHeader(h), EncodeStrings(t.strings) + (EncodeOperands(t.operands) + (attrs + cbs)));
  }

  // ----- both together -----

  /** A function with distinct ids is read back from what is written exactly when it is accepted, with
      its operands as the reader makes them and every flag the reader sets; it is the same function
      exactly when its operands survive and its flags are complete as well; and no two slots of
      what is read share an operand object. */
  method WriteThenRead(m: Machine, fn: Function) returns (ok: bool, back: CellFunction)
    requires ValidFunction(m, fn)
    ensures DistinctFnIds(fn) ==> (ok <==> Accepted(m, fn))
    ensures DistinctFnIds(fn) && ok ==> ViewFn(CELLS, back) == ReadBack(m, fn) && Distinct(FunctionObjects(back))
    ensures DistinctFnIds(fn) && ok ==>
              && ContentsFollow(fn, ViewFn(CELLS, back)) && FnFlagsFollow(m, fn, ViewFn(CELLS, back))
              && forall i :: 0 <= i < |fn.cbs| ==> CbFlagsFollow(m, fn.cbs[i], ViewFn(CELLS, back).cbs[i])
    ensures DistinctFnIds(fn) ==>
              (ok && ViewFn(CELLS, back) == fn <==> Accepted(m, fn) && OperandsSurvive(fn) && FlagsComplete(m, fn))
  {
    hide EncodeFunction, ParseFunction, DecodeFunction, ViewFn, FunctionObjects, NonZeroOperIds, SizedFunction;
    hide TablesOf, Accepted, ReadBack, OperandsSurvive, FlagsComplete, DistinctFnIds, DistinctIds, RecordOfFn;
    hide CbFlagsFollow, FnFlagsFollow, CbContentsFollow;
    forall o | o in TablesOf(fn).operands
      ensures IntsFit(o)
    {
      ValidFits(m.names, o);
    }
    var out := new Output();
    PrintFunction(out, m, fn);
    FunctionRoundTrip(m, fn, []);
    FunctionSame(m, fn);
    assert out.bytes == EncodeFunction(fn) + [];
    var input := new Input(out.bytes);
    ok, back := ReadFunction(input, m);
    if DistinctFnIds(fn) && ok {
      WrittenIdsDistinct(m, fn);
      ReadFollows(m, fn, []);
    }
  }

  lemma WrittenIdsDistinct(m: Machine, fn: Function)
    requires ValidFunction(m, fn) && DistinctFnIds(fn) && ParseFunction(m, EncodeFunction(fn) + []).Got?
    ensures DistinctIds(ParseFunction(m, EncodeFunction(fn) + []).value.cbs)
  {
    hide EncodeFunction, ParseFunction, NonZeroOperIds, SizedFunction, TablesOf, CbRecordsOf;
    ParseRoundTrip(m, fn, []);
    SameAllIds(fn.cbs);
  }

  lemma ValidFits(names: Names, o: Operand)
    requires ValidOperand(names, o)
    ensures IntsFit(o)
  {
  }
}
