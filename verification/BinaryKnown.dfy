/** Every operand in a function that is read comes from the operand table that was read, whatever
    the bytes and however often ids repeat. */
module BinaryKnown {
  import opened BinaryCodec
  import opened BinaryOperand
  import opened Flags
  import opened BinaryOper
  import opened BinaryBody
  import opened BinaryInterning
  import opened BinaryObjects
  import opened BinaryFunction

  predicate RecordKnown(t: Tables, r: Record) {
    Known(t, r.src) && Known(t, r.dest) && Known(t, r.pred) && AttrsKnown(t, r.attrs)
  }

  predicate RecordsKnown(t: Tables, rs: seq<Record>) {
    forall i :: 0 <= i < |rs| ==> RecordKnown(t, rs[i])
  }

  predicate CbRecordKnown(t: Tables, r: CbRec) {
    AttrsKnown(t, r.attrs) && RecordsKnown(t, r.ops)
  }

  predicate CbRecordsKnown(t: Tables, rs: seq<CbRec>) {
    forall i :: 0 <= i < |rs| ==> CbRecordKnown(t, rs[i])
  }

  // ----- records -----

  lemma {:induction false} IdsReadKnown(t: Tables, n: int, bs: seq<Byte>)
    ensures var r := DecodeIds(t, n, bs);
      r.Got? ==> Known(t, r.value)
    decreases n
  {
    hide DecodeInt;
    if n > 0 {
      var first := DecodeInt(bs);
      if first.Got? {
        IdsReadKnown(t, n - 1, first.rest);
      }
    }
  }

  lemma SlotsReadKnown(t: Tables, max: nat, bs: seq<Byte>)
    ensures var r := DecodeSlots(t, max, bs);
      r.Got? ==> Known(t, r.value)
  {
    hide DecodeInt, DecodeIds;
    var n := DecodeInt(bs);
    if n.Got? {
      IdsReadKnown(t, n.value, n.rest);
    }
  }

  lemma {:induction false} AttrsReadKnown(t: Tables, n: int, bs: seq<Byte>)
    ensures var r := DecodeAttrs(t, n, bs);
      r.Got? ==> AttrsKnown(t, r.value)
    decreases n
  {
    hide DecodeName, DecodeSlots, Known;
    if n > 0 {
      var name := DecodeName(t, bs);
      if name.Got? {
        SlotsReadKnown(t, MAX_INT, name.rest);
      }
      var first := DecodeAttr(t, bs);
      if first.Got? {
        AttrsReadKnown(t, n - 1, first.rest);
      }
    }
  }

  lemma AttrPartReadKnown(t: Tables, o: Record, bs: seq<Byte>)
    requires RecordKnown(t, o)
    ensures var r := ReadAttrPart(t, o, bs);
      r.Got? ==> RecordKnown(t, r.value)
  {
    hide DecodeInt, DecodeAttrs, PeekSpecial, Known, AttrsKnown;
    var n := DecodeInt(bs);
    if n.Got? {
      AttrsReadKnown(t, n.value, n.rest);
    }
  }

  lemma PredPartReadKnown(m: Machine, t: Tables, o: Record, bs: seq<Byte>)
    requires RecordKnown(t, o)
    ensures var r := ReadPredPart(m, t, o, bs);
      r.Got? ==> RecordKnown(t, r.value)
  {
    hide DecodeSlots, ReadAttrPart, PeekSpecial, Known, AttrsKnown;
    SlotsReadKnown(t, m.maxPred, bs);
    var s := DecodeSlots(t, m.maxPred, bs);
    if s.Got? {
      AttrPartReadKnown(t, o.(pred := s.value), s.rest);
    }
  }

  lemma FlagPartReadKnown(m: Machine, t: Tables, o: Record, bs: seq<Byte>)
    requires RecordKnown(t, o)
    ensures var r := ReadFlagPart(m, t, o, bs);
      r.Got? ==> RecordKnown(t, r.value)
  {
    hide DecodeFlags, ReadPredPart, PeekSpecial, Known, AttrsKnown;
    var flags := DecodeFlags(OPER_FLAGS, t, bs);
    if flags.Got? {
      PredPartReadKnown(m, t, o.(flags := flags.value), flags.rest);
    }
  }

  lemma DestPartReadKnown(m: Machine, t: Tables, o: Record, bs: seq<Byte>)
    requires RecordKnown(t, o)
    ensures var r := ReadDestPart(m, t, o, bs);
      r.Got? ==> RecordKnown(t, r.value)
  {
    hide DecodeSlots, ReadFlagPart, PeekSpecial, Known, AttrsKnown;
    SlotsReadKnown(t, m.maxDest, bs);
    var s := DecodeSlots(t, m.maxDest, bs);
    if s.Got? {
      FlagPartReadKnown(m, t, o.(dest := s.value), s.rest);
    }
  }

  lemma SrcPartReadKnown(m: Machine, t: Tables, o: Record, bs: seq<Byte>)
    requires RecordKnown(t, o)
    ensures var r := ReadSrcPart(m, t, o, bs);
      r.Got? ==> RecordKnown(t, r.value)
  {
    hide DecodeSlots, ReadDestPart, PeekSpecial, Known, AttrsKnown;
    SlotsReadKnown(t, m.maxSrc, bs);
    var s := DecodeSlots(t, m.maxSrc, bs);
    if s.Got? {
      DestPartReadKnown(m, t, o.(src := s.value), s.rest);
    }
  }

  lemma OperReadKnown(m: Machine, t: Tables, bs: seq<Byte>)
    ensures var r := DecodeOper(m, t, bs);
      r.Got? ==> RecordKnown(t, r.value)
  {
    hide DecodeInt, DecodeName, DecodeCom, ReadSrcPart, PeekSpecial, RecordKnown;
    var id := DecodeInt(bs);
    if id.Got? {
      var opcode := DecodeName(t, id.rest);
      if opcode.Got? {
        var com := DecodeCom(ComCount(m, opcode.value), opcode.rest);
        if com.Got? {
          NewIsKnown(t, id.value, opcode.value, com.value);
          SrcPartReadKnown(m, t, NewRecord(id.value, opcode.value, com.value), com.rest);
        }
      }
    }
  }

  lemma NewIsKnown(t: Tables, id: int, opcode: Text, com: seq<int>)
    ensures RecordKnown(t, NewRecord(id, opcode, com))
  {
  }

  lemma {:induction false} OpersReadKnown(m: Machine, t: Tables, n: nat, bs: seq<Byte>)
    ensures var r := DecodeOpers(m, t, n, bs);
      r.Got? ==> RecordsKnown(t, r.value)
    decreases |bs|, n
  {
    hide DecodeOper, RecordKnown;
    if n > 0 {
      var parent := bs != [] && bs[0] == PARENT_MARK;
      var tail := if parent then bs[1..] else bs;
      OperReadKnown(m, t, tail);
      var first := DecodeOper(m, t, tail);
      if first.Got? {
        OpersReadKnown(m, t, if parent then n else n - 1, first.rest);
      }
    }
  }

  lemma CbReadKnown(m: Machine, t: Tables, bs: seq<Byte>)
    ensures var r := DecodeCb(m, t, bs);
      r.Got? ==> CbRecordKnown(t, r.value)
  {
    hide DecodeHeader, DecodeFlows, DecodeAttrs, DecodeOpers, AttrsKnown, RecordsKnown;
    var h := DecodeHeader(t, bs);
    if h.Got? {
      var flows := DecodeFlows(h.value.flows, h.rest);
      if flows.Got? {
        AttrsReadKnown(t, h.value.attrs, flows.rest);
        var attrs := DecodeAttrs(t, h.value.attrs, flows.rest);
        if attrs.Got? {
          OpersReadKnown(m, t, Count(h.value.ops), attrs.rest);
        }
      }
    }
  }

  lemma {:induction false} BodyReadKnown(m: Machine, t: Tables, n: nat, bs: seq<Byte>)
    ensures var r := DecodeBody(m, t, n, bs);
      r.Got? ==> CbRecordsKnown(t, r.value)
  {
    hide DecodeCb, DecodeString, CbRecordKnown;
    if n > 0 {
      CbReadKnown(m, t, bs);
      var first := DecodeCb(m, t, bs);
      if first.Got? {
        BodyReadKnown(m, t, n - 1, first.rest);
      }
    }
  }

  // ----- objects -----

  ghost predicate StoreKnown(t: Tables, s: Store<Slot>) {
    && (forall id :: id in s.opers ==> OperKnown(t, s.opers[id]))
    && (forall id :: id in s.cbs ==> AttrsKnown(t, s.cbs[id].attrs))
  }

  lemma OverlayKnown(t: Tables, s: Slots, base: Slots)
    requires Known(t, s) && Known(t, base)
    ensures Known(t, Overlay(s, base))
  {
  }

  lemma AttrsKnownConcat(t: Tables, a: seq<Attr>, b: seq<Attr>)
    requires AttrsKnown(t, a) && AttrsKnown(t, b)
    ensures AttrsKnown(t, a + b)
  {
    hide Known;
  }

  lemma EnteredKnown(m: Machine, t: Tables, s: Store<Slot>, r: Record)
    requires StoreKnown(t, s) && RecordKnown(t, r)
    ensures OperKnown(t, Entered(m, VALUES, s.opers, r))
  {
    hide Known, AttrsKnown, Overlay, BlankOper;
    var base := if r.id in s.opers then s.opers[r.id] else BlankOper(m, VALUES.none, r.id);
    BlankIsKnown(m, t, r.id);
    OverlayKnown(t, r.src, base.src);
    OverlayKnown(t, r.dest, base.dest);
    OverlayKnown(t, r.pred, base.pred);
    AttrsKnownConcat(t, base.attrs, r.attrs);
  }

  lemma BlankIsKnown(m: Machine, t: Tables, id: int)
    ensures OperKnown(t, BlankOper(m, VALUES.none, id))
  {
  }

  lemma {:induction false} EnterOpersKnown(m: Machine, t: Tables, s: Store<Slot>, cb: int, rs: seq<Record>)
    requires StoreKnown(t, s) && cb in s.cbs && RecordsKnown(t, rs)
    ensures StoreKnown(t, EnterOpers(m, VALUES, s, cb, rs))
  {
    hide RecordKnown, OperKnown, AttrsKnown, Entered, InsertAfter, FlagsFor, Predicated;
    if rs != [] {
      var n := |rs| - 1;
      EnterOpersKnown(m, t, s, cb, rs[..n]);
      EnteredKnown(m, t, EnterOpers(m, VALUES, s, cb, rs[..n]), rs[n]);
    }
  }

  lemma EnterCbKnown(t: Tables, s: Store<Slot>, r: CbRec)
    requires StoreKnown(t, s) && AttrsKnown(t, r.attrs)
    ensures StoreKnown(t, EnterCb(s, r))
  {
    hide OperKnown, AttrsKnown, InsertAfter;
    var base := if r.id in s.cbs then s.cbs[r.id] else CbObject({}, [], [], [], NO_ENDS);
    NothingIsKnown(t);
    AttrsKnownConcat(t, base.attrs, r.attrs);
  }

  lemma NothingIsKnown(t: Tables)
    ensures AttrsKnown(t, [])
  {
  }

  lemma {:induction false} EnterBlocksKnown(m: Machine, t: Tables, flags: set<Byte>, rs: seq<CbRec>)
    requires CbRecordsKnown(t, rs)
    ensures StoreKnown(t, EnterBlocks(m, VALUES, EmptyStore(flags), rs))
  {
    hide RecordsKnown, OperKnown, AttrsKnown, EnterCb, EnterOpers, StoreKnown;
    if rs == [] {
      EmptyIsKnown(t, flags);
    } else {
      var n := |rs| - 1;
      var s := EnterBlocks(m, VALUES, EmptyStore(flags), rs[..n]);
      assert CbRecordKnown(t, rs[n]);
      EnterBlocksKnown(m, t, flags, rs[..n]);
      EnterCbKnown(t, s, rs[n]);
      EnterOpersKnown(m, t, EnterCb(s, rs[n]), rs[n].id, rs[n].ops);
    }
  }

  lemma EmptyIsKnown(t: Tables, flags: set<Byte>)
    ensures StoreKnown(t, EmptyStore(flags))
  {
  }

  lemma {:induction false} LookupKnown(t: Tables, opers: map<int, Oper>, ids: seq<int>)
    requires forall id :: id in opers ==> OperKnown(t, opers[id])
    ensures var r := Lookup(opers, ids);
      r.Some? ==> OpersKnown(t, r.value)
  {
    hide OperKnown;
    if ids != [] {
      LookupKnown(t, opers, ids[..|ids| - 1]);
    }
  }

  lemma BlockAtKnown(t: Tables, s: Store<Slot>, id: int)
    requires StoreKnown(t, s)
    ensures var r := BlockAt(s, id);
      r.Some? ==> CbKnown(t, r.value)
  {
    hide OperKnown, AttrsKnown, Walk, Lookup, OpersKnown;
    if id in s.cbs {
      var ids := Walk(s.next, s.cbs[id].ops.first, {});
      if ids.Some? {
        LookupKnown(t, s.opers, ids.value);
      }
    }
  }

  lemma {:induction false} BlocksAtKnown(t: Tables, s: Store<Slot>, ids: seq<int>)
    requires StoreKnown(t, s)
    ensures var r := BlocksAt(s, ids);
      r.Some? ==> CbsKnown(t, r.value)
  {
    hide StoreKnown, BlockAt, CbKnown;
    if ids != [] {
      BlocksAtKnown(t, s, ids[..|ids| - 1]);
      BlockAtKnown(t, s, ids[|ids| - 1]);
    }
  }

  lemma AssembledKnown(m: Machine, t: Tables, r: FnRecord<Slot>)
    requires AttrsKnown(t, r.attrs) && CbRecordsKnown(t, r.cbs)
    ensures var fn := Assemble(m, VALUES, r);
      fn.Some? ==> AttrsKnown(t, fn.value.attrs) && CbsKnown(t, fn.value.cbs)
  {
    hide AttrsKnown, CbRecordsKnown, EnterBlocks, Walk, BlocksAt, LargestIdGiven, DefinesOk, StoreKnown, CbKnown;
    var s := EnterBlocks(m, VALUES, EmptyStore(r.flags), r.cbs);
    EnterBlocksKnown(m, t, r.flags, r.cbs);
    var ids := Walk(s.nextCb, s.ends.first, {});
    if ids.Some? {
      BlocksAtKnown(t, s, ids.value);
    }
  }

  predicate NoLocalGpLabel(fn: Function) {
    forall o :: o in AllOperands(fn) ==> !IsLocalGpLabel(o)
  }

  /** Whatever the bytes, a function that is read holds no local gp label. */
  lemma ReadHasNoLocalGpLabel(m: Machine, bs: seq<Byte>)
    ensures var r := DecodeFunction(m, bs);
      r.Got? ==> NoLocalGpLabel(r.value)
  {
    hide DecodeFnHeader, DecodeStrings, DecodeOperands, DecodeAttrs, DecodeBody, NamedFlags, Assemble;
    hide AttrsKnown, CbsKnown, CbRecordsKnown;
    var p := ParseFunction(m, bs);
    if p.Got? && Assemble(m, VALUES, p.value).Some? {
      var fn := Assemble(m, VALUES, p.value).value;
      var h := DecodeFnHeader(bs);
      var strings := DecodeStrings(h.value.strings, h.rest);
      var operands := DecodeOperands(m.names, h.value.operands, strings.rest);
      var t := Tables(strings.value, operands.value);
      var attrs := DecodeAttrs(t, h.value.attrs, operands.rest);
      NoLocalGpLabelInTable(m.names, h.value.operands, strings.rest);
      AttrsReadKnown(t, h.value.attrs, operands.rest);
      BodyReadKnown(m, t, Count(h.value.cbs), attrs.rest);
      AssembledKnown(m, t, p.value);
      AttrsAreKnown(t, fn.attrs);
      CbsAreKnown(t, fn.cbs);
    }
  }
}
