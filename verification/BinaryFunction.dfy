/** A whole function in the binary format: header, string table, operand table, attributes, body. */
module BinaryFunction {
  import opened Collections
  import opened BinaryCodec
  import opened BinaryOperand
  import opened BinaryOper
  import opened BinaryBody
  import opened BinaryInterning
  import opened BinaryObjects
  import opened Flags

  // ----- specification of the writer and the reader -----

  /** Everything before the tables, from the function's name on. */
  datatype FnHeader =
    FnHeader(name: Text, flagId: int, weight: Text, strings: int, operands: int, attrs: int, cbs: int)

  function HeaderOf(fn: Function): FnHeader {
    var t := TablesOf(fn);
    FnHeader(fn.name, FlagId(t, FnText(fn)), fn.weight, |t.strings|, |t.operands|, |fn.attrs|, |fn.cbs|)
  }

  function EncodeFnHeader(h: FnHeader): seq<Byte> {
    EncodeString(h.name) + (EncodeInt(h.flagId) + (EncodeString(h.weight) + (EncodeInt(h.strings) +
      (EncodeInt(h.operands) + (EncodeInt(h.attrs) + EncodeInt(h.cbs))))))
  }

  function EncodeFunction(fn: Function): seq<Byte> {
    var t := TablesOf(fn);
    EncodeFnHeader(HeaderOf(fn)) + (EncodeStrings(t.strings) + (EncodeOperands(t.operands) +
      (EncodeAttrs(t, fn.attrs) + EncodeBody(t, fn.cbs))))
  }

  function DecodeFnHeader(bs: seq<Byte>): Read<FnHeader> {
    var name := DecodeString(bs);
    if name.Fail? then Fail else
    var flagId := DecodeInt(name.rest);
    if flagId.Fail? then Fail else
    var weight := DecodeString(flagId.rest);
    if weight.Fail? then Fail else
    var ns := DecodeInt(weight.rest);
    if ns.Fail? then Fail else
    var no := DecodeInt(ns.rest);
    if no.Fail? then Fail else
    var na := DecodeInt(no.rest);
    if na.Fail? then Fail else
    var nc := DecodeInt(na.rest);
    if nc.Fail? then Fail else
    Got(FnHeader(name.value, flagId.value, weight.value, ns.value, no.value, na.value, nc.value), nc.rest)
  }

  /** What the records of a function say. */
  datatype FnRecord<S> = FnRecord(name: Text, flags: set<Byte>, weight: Text, attrs: seq<Attribute<S>>,
                                  cbs: seq<BlockRecord<S>>)

  /** The flags behind an id of the string table. */
  function NamedFlags(order: seq<Byte>, strings: seq<Text>, id: int): Option<set<Byte>> {
    if !(0 <= id <= |strings|) then None
    else if id == 0 then Some({})
    else FlagSet(order, strings[id - 1])
  }

  /** The records of a function.  The flag id is looked up only after the string table has been read. */
  function ParseFunction(m: Machine, bs: seq<Byte>): Read<FnRecord<Slot>> {
    var h := DecodeFnHeader(bs);
    if h.Fail? then Fail else
    var strings := DecodeStrings(h.value.strings, h.rest);
    if strings.Fail? then Fail else
    var flags := NamedFlags(FUNC_FLAGS, strings.value, h.value.flagId);
    if flags.None? then Fail else
    var operands := DecodeOperands(m.names, h.value.operands, strings.rest);
    if operands.Fail? then Fail else
    var t := Tables(strings.value, operands.value);
    var attrs := DecodeAttrs(t, h.value.attrs, operands.rest);
    if attrs.Fail? then Fail else
    match DecodeBody(m, t, Count(h.value.cbs), attrs.rest)
    case Fail => Fail
    case Got(cbs, rest) =>
      Got(FnRecord(h.value.name, flags.value, h.value.weight, attrs.value, cbs), rest)
  }

  // ----- from records to a function -----

  const MAX_CB_ID: Text := [
    'm' as int, 'a' as int, 'x' as int, '_' as int, 'c' as int, 'b' as int, '_' as int, 'i' as int, 'd' as int]

  /** The attribute that names the largest block id is looked into, so its first field must be there. */
  predicate LargestIdGiven<S>(k: SlotKind<S>, attrs: seq<Attribute<S>>) {
    forall i :: 0 <= i < |attrs| && attrs[i].name == MAX_CB_ID ==>
      attrs[i].fields != [] && k.value(attrs[i].fields[0]).Some?
  }

  /** A define of a frame size has an integer source. */
  predicate DefineOk<S>(m: Machine, k: SlotKind<S>, o: Operation<S>) {
    o.opcode == m.define && o.dest != [] && SizeMacro(m, k.value(o.dest[0])) ==>
      o.src != [] && IsImmed(k.value(o.src[0]))
  }

  predicate SizeMacro(m: Machine, s: Slot) {
    s.Some? && s.value.Macro? && s.value.name in m.sizeMacros
  }

  predicate IsImmed(s: Slot) {
    s.Some? && s.value.Immed?
  }

  predicate DefinesOk<S>(m: Machine, k: SlotKind<S>, cbs: seq<Block<S>>) {
    forall i, j :: 0 <= i < |cbs| && 0 <= j < |cbs[i].ops| ==> DefineOk(m, k, cbs[i].ops[j])
  }

  predicate HasCall<S>(m: Machine, cbs: seq<Block<S>>) {
    exists i, j :: 0 <= i < |cbs| && 0 <= j < |cbs[i].ops| && cbs[i].ops[j].opcode in m.calls
  }

  /** A function without calls is marked as a leaf, one with calls is not. */
  function LeafFlags<S>(m: Machine, flags: set<Byte>, cbs: seq<Block<S>>): set<Byte> {
    if HasCall(m, cbs) then flags - {LEAF} else flags + {LEAF}
  }

  /** The function the program holds after the records; None when it stops or runs in a circle. */
  function Assemble<S>(m: Machine, k: SlotKind<S>, r: FnRecord<S>): Option<Fn<S>> {
    if !LargestIdGiven(k, r.attrs) then None
    else
      var s := EnterBlocks(m, k, EmptyStore(r.flags), r.cbs);
      var cbs := Collected(s);
      if cbs.None? || !DefinesOk(m, k, cbs.value) then None
      else Some(Function(r.name, LeafFlags(m, s.flags, cbs.value), r.weight, r.attrs, cbs.value))
  }

  function DecodeFunction(m: Machine, bs: seq<Byte>): Read<Function> {
    match ParseFunction(m, bs)
    case Fail => Fail
    case Got(r, rest) =>
      match Assemble(m, VALUES, r)
      case None => Fail
      case Some(fn) => Got(fn, rest)
  }

  // ----- what comes back when ids are distinct -----

  function ReturnedOper(o: Oper): Oper {
    Oper(o.id, o.opcode, o.com, ReturnedSlots(o.src), ReturnedSlots(o.dest), o.flags, ReturnedSlots(o.pred),
         ReturnedAttrs(o.attrs))
  }

  function ReturnedOpers(ops: seq<Oper>): (r: seq<Oper>)
    ensures |r| == |ops|
    ensures forall i :: 0 <= i < |ops| ==> r[i] == ReturnedOper(ops[i])
  {
    seq(|ops|, i requires 0 <= i < |ops| => ReturnedOper(ops[i]))
  }

  /** The flags operations put on their block. */
  ghost function FlagsAdded(m: Machine, ops: seq<Oper>): set<Byte> {
    set c, i | c in {HYPERBLOCK, PROLOGUE, EPILOGUE} && 0 <= i < |ops| && c in FlagsFor(m, VALUES, ops[i]) :: c
  }

  ghost function ReadBackCb(m: Machine, cb: Cb): Cb {
    Cb(cb.id, cb.flags + FlagsAdded(m, cb.ops), cb.weight, cb.flows, ReturnedAttrs(cb.attrs), ReturnedOpers(cb.ops))
  }

  ghost function ReadBackCbs(m: Machine, cbs: seq<Cb>): (r: seq<Cb>)
    ensures |r| == |cbs|
    ensures forall i :: 0 <= i < |cbs| ==> r[i] == ReadBackCb(m, cbs[i])
  {
    seq(|cbs|, i requires 0 <= i < |cbs| => ReadBackCb(m, cbs[i]))
  }

  ghost predicate HasPredicated(cbs: seq<Cb>) {
    exists i, j :: 0 <= i < |cbs| && 0 <= j < |cbs[i].ops| && Predicated(VALUES, cbs[i].ops[j])
  }

  /** The function that is read back: operands as the reader makes them, and every flag it sets. */
  ghost function ReadBack(m: Machine, fn: Function): Function {
    var flags := fn.flags + if HasPredicated(fn.cbs) then {HYPERBLOCK} else {};
    Function(fn.name, LeafFlags(m, flags, fn.cbs), fn.weight, ReturnedAttrs(fn.attrs), ReadBackCbs(m, fn.cbs))
  }

  // ----- round trip -----

  /** The function fits the format. */
  predicate ValidFunction(m: Machine, fn: Function) {
    && SizedFunction(m, fn)
    && (forall s :: s in TablesOf(fn).strings ==> IsText(s))
    && (forall o :: o in TablesOf(fn).operands ==> ValidOperand(m.names, o))
  }

  function BlockOperIds(cb: Cb): (ids: seq<int>)
    ensures |ids| == |cb.ops|
  {
    seq(|cb.ops|, i requires 0 <= i < |cb.ops| => cb.ops[i].id)
  }

  /** The ids of all operations, block after block. */
  function FnOperIds(cbs: seq<Cb>): seq<int> {
    if cbs == [] then [] else FnOperIds(cbs[..|cbs| - 1]) + BlockOperIds(cbs[|cbs| - 1])
  }

  function FnBlockIds(cbs: seq<Cb>): (ids: seq<int>)
    ensures |ids| == |cbs|
  {
    seq(|cbs|, i requires 0 <= i < |cbs| => cbs[i].id)
  }

  ghost predicate DistinctFnIds(fn: Function) {
    Distinct(FnBlockIds(fn.cbs)) && Distinct(FnOperIds(fn.cbs))
  }

  /** The reader does not stop: no operation has id 0, frame sizes are integers, and an attribute
      for the largest block id has its field. */
  ghost predicate Accepted(m: Machine, fn: Function) {
    NonZeroOperIds(fn.cbs) && DefinesOk(m, VALUES, fn.cbs) && LargestIdGiven(VALUES, fn.attrs)
  }

  /** Every flag the reader sets is set already, and the leaf flag is right. */
  ghost predicate FlagsComplete(m: Machine, fn: Function) {
    && (forall i :: 0 <= i < |fn.cbs| ==> FlagsAdded(m, fn.cbs[i].ops) <= fn.cbs[i].flags)
    && (HasPredicated(fn.cbs) ==> HYPERBLOCK in fn.flags)
    && (LEAF in fn.flags <==> !HasCall(m, fn.cbs))
  }

  predicate OperandsSurvive(fn: Function) {
    forall o :: o in AllOperands(fn) ==> Survives(o)
  }

  lemma FnHeaderRoundTrip(h: FnHeader, rest: seq<Byte>)
    requires IsText(h.name) && InRange(h.flagId) && IsText(h.weight)
    requires InRange(h.strings) && InRange(h.operands) && InRange(h.attrs) && InRange(h.cbs)
    ensures DecodeFnHeader(EncodeFnHeader(h) + rest) == Got(h, rest)
  {
    hide EncodeInt, DecodeInt, EncodeString, DecodeString, IsText;
    var r6: seq<Byte> := EncodeInt(h.cbs) + rest;
    var r5: seq<Byte> := EncodeInt(h.attrs) + r6;
    var r4: seq<Byte> := EncodeInt(h.operands) + r5;
    var r3: seq<Byte> := EncodeInt(h.strings) + r4;
    var r2: seq<Byte> := EncodeString(h.weight) + r3;
    var r1: seq<Byte> := EncodeInt(h.flagId) + r2;
    var c6: seq<Byte> := EncodeInt(h.cbs);
    var c5: seq<Byte> := EncodeInt(h.attrs) + c6;
    var c4: seq<Byte> := EncodeInt(h.operands) + c5;
    var c3: seq<Byte> := EncodeInt(h.strings) + c4;
    var c2: seq<Byte> := EncodeString(h.weight) + c3;
    var c1: seq<Byte> := EncodeInt(h.flagId) + c2;
    Assoc(EncodeInt(h.attrs), c6, rest);
    Assoc(EncodeInt(h.operands), c5, rest);
    Assoc(EncodeInt(h.strings), c4, rest);
    Assoc(EncodeString(h.weight), c3, rest);
    Assoc(EncodeInt(h.flagId), c2, rest);
    Assoc(EncodeString(h.name), c1, rest);
    StringRoundTrip(h.name, r1);
    IntRoundTrip(h.flagId, r2);
    StringRoundTrip(h.weight, r3);
    IntRoundTrip(h.strings, r4);
    IntRoundTrip(h.operands, r5);
    IntRoundTrip(h.attrs, r6);
    IntRoundTrip(h.cbs, rest);
  }

  /** Reading past the header and the tables of a written function. */
  lemma TablesRoundTrip(m: Machine, fn: Function, rest: seq<Byte>)
    requires ValidFunction(m, fn)
    ensures var t := TablesOf(fn);
      var body := EncodeAttrs(t, fn.attrs) + (EncodeBody(t, fn.cbs) + rest);
      var afterStrings := EncodeOperands(t.operands) + body;
      var afterHeader := EncodeStrings(t.strings) + afterStrings;
      && DecodeFnHeader(EncodeFunction(fn) + rest) == Got(HeaderOf(fn), afterHeader)
      && DecodeStrings(|t.strings|, afterHeader) == Got(t.strings, afterStrings)
      && DecodeOperands(m.names, |t.operands|, afterStrings) == Got(AllReturned(t.operands), body)
  {
    hide EncodeFnHeader, DecodeFnHeader, EncodeStrings, DecodeStrings, EncodeOperands, DecodeOperands;
    hide EncodeAttrs, EncodeBody, TablesOf, SizedCb, AllReturned;
    var t := TablesOf(fn);
    var cbs: seq<Byte> := EncodeBody(t, fn.cbs);
    var attrs: seq<Byte> := EncodeAttrs(t, fn.attrs);
    var operands: seq<Byte> := EncodeOperands(t.operands);
    var strings: seq<Byte> := EncodeStrings(t.strings);
    var body: seq<Byte> := attrs + (cbs + rest);
    Assoc(attrs, cbs, rest);
    Assoc(operands, attrs + cbs, rest);
    Assoc(strings, operands + (attrs + cbs), rest);
    Assoc(EncodeFnHeader(HeaderOf(fn)), strings + (operands + (attrs + cbs)), rest);
    FnHeaderRoundTrip(HeaderOf(fn), strings + (operands + body));
    StringsRoundTrip(t.strings, operands + body);
    OperandsRoundTrip(m.names, t.operands, body);
  }

  function RecordOfFn(fn: Function): FnRecord<Slot> {
    FnRecord(fn.name, fn.flags, fn.weight, ReturnedAttrs(fn.attrs), CbRecordsOf(fn.cbs))
  }

  lemma NamedFlagsRoundTrip(order: seq<Byte>, t: Tables, flags: set<Byte>)
    requires AllUpper(order) && forall c :: c in flags ==> c in order
    requires FlagString(order, flags) != [] ==> FlagString(order, flags) in t.strings
    ensures NamedFlags(order, t.strings, FlagId(t, FlagString(order, flags))) == Some(flags)
  {
    hide FlagSet, FlagString, AllUpper;
    FlagsRoundTrip(order, flags);
    if FlagString(order, flags) == [] {
      NoText(order, flags);
    }
  }

  /** A word of printed flags with an empty string has no flags. */
  lemma NoText(order: seq<Byte>, flags: set<Byte>)
    requires (forall c :: c in flags ==> c in order) && FlagString(order, flags) == []
    ensures flags == {}
  {
    assert forall c :: c in flags ==> c in FlagString(order, flags);
  }

  /** The records of a written function are read, byte for byte consumed, exactly when no operation
      has id 0. */
  lemma ParseRoundTrip(m: Machine, fn: Function, rest: seq<Byte>)
    requires ValidFunction(m, fn)
    ensures ParseFunction(m, EncodeFunction(fn) + rest) ==
            if NonZeroOperIds(fn.cbs) then Got(RecordOfFn(fn), rest) else Fail
  {
    hide EncodeFunction, DecodeFnHeader, DecodeStrings, DecodeOperands, DecodeAttrs, DecodeBody;
    hide EncodeStrings, EncodeOperands, EncodeAttrs, EncodeBody, TablesOf, SizedCb, ValidCbs, ValidAttr, AttrsKnown;
    hide NonZeroOperIds, CbsKnown, AllReturned, NamedFlags, FlagString, ReturnedAttr, CbRecordOf, AllUpper;
    var t := TablesOf(fn);
    OwnTables(m, fn);
    TablesRoundTrip(m, fn, rest);
    OrdersAreUpper();
    NamedFlagsRoundTrip(FUNC_FLAGS, t, fn.flags);
    assert Reread(t) == Tables(t.strings, AllReturned(t.operands));
    AttrsRoundTrip(t, fn.attrs, EncodeBody(t, fn.cbs) + rest);
    BodyRoundTrip(m, t, fn.cbs, rest);
  }

  // ----- records on their own give back the function -----

  /** Storing trimmed slots over blank ones undoes the trimming. */
  lemma TrimPad(s: Slots)
    ensures Overlay(Trim(s), Blank(|s|)) == s
    ensures Overlay(ReturnedSlots(Trim(s)), Blank(|s|)) == ReturnedSlots(s)
  {
    hide ReturnedSlots, Trim, Blank;
    var r := Trim(s);
    BlankTail(|s|, |r|);
    ReturnedPadded(r, |s| - |r|);
  }

  lemma BlankTail(n: nat, i: nat)
    requires i <= n
    ensures Blank(n)[i..] == Blank(n - i)
  {
  }

  lemma ReturnedPadded(s: Slots, n: nat)
    ensures ReturnedSlots(s + Blank(n)) == ReturnedSlots(s) + Blank(n)
  {
  }

  lemma PlainIsReturned(m: Machine, o: Oper)
    requires SizedOper(m, o)
    ensures PlainOper(m, VALUES, RecordOf(o)) == ReturnedOper(o)
  {
    hide Trim, ReturnedSlot, ReturnedAttr, FlagString, Overlay;
    TrimPad(o.src);
    TrimPad(o.dest);
    TrimPad(o.pred);
    assert seq(m.maxSrc, _ => VALUES.none) == Blank(m.maxSrc);
    assert seq(m.maxDest, _ => VALUES.none) == Blank(m.maxDest);
    assert seq(m.maxPred, _ => VALUES.none) == Blank(m.maxPred);
    if FlagText(o) == [] {
      assert o.flags == {} by {
        assert forall c :: c in o.flags ==> c in FlagText(o);
      }
    }
    assert [] + ReturnedAttrs(o.attrs) == ReturnedAttrs(o.attrs);
  }

  lemma SameFlagsFor(m: Machine, o: Oper)
    ensures FlagsFor(m, VALUES, ReturnedOper(o)) == FlagsFor(m, VALUES, o)
    ensures Predicated(VALUES, ReturnedOper(o)) <==> Predicated(VALUES, o)
    ensures HYPERBLOCK in FlagsFor(m, VALUES, o) <==> Predicated(VALUES, o)
    ensures FlagsFor(m, VALUES, o) <= {HYPERBLOCK, PROLOGUE, EPILOGUE}
  {
  }

  lemma {:induction false} OpersFlagsAdded(m: Machine, ops: seq<Oper>)
    requires forall i :: 0 <= i < |ops| ==> SizedOper(m, ops[i])
    ensures OpersFlags(m, VALUES, RecordsOf(ops)) == FlagsAdded(m, ops)
  {
    hide RecordOf, PlainOper, FlagsFor, SizedOper, ReturnedOper, Predicated;
    if ops != [] {
      var n := |ops| - 1;
      var before := ops[..n];
      OpersFlagsAdded(m, before);
      assert RecordsOf(ops)[..n] == RecordsOf(before);
      PlainIsReturned(m, ops[n]);
      SameFlagsFor(m, ops[n]);
      assert FlagsAdded(m, ops) == FlagsAdded(m, before) + FlagsFor(m, VALUES, ops[n]) by {
        FlagsAddedSnoc(m, before, ops[n]);
        assert ops == before + [ops[n]];
      }
    }
  }

  lemma FlagsAddedSnoc(m: Machine, ops: seq<Oper>, o: Oper)
    requires FlagsFor(m, VALUES, o) <= {HYPERBLOCK, PROLOGUE, EPILOGUE}
    ensures FlagsAdded(m, ops + [o]) == FlagsAdded(m, ops) + FlagsFor(m, VALUES, o)
  {
    hide FlagsFor;
    var all := ops + [o];
    forall c
      ensures c in FlagsAdded(m, all) <==> c in FlagsAdded(m, ops) || c in FlagsFor(m, VALUES, o)
    {
      if c in FlagsAdded(m, ops) {
        var i :| 0 <= i < |ops| && c in FlagsFor(m, VALUES, ops[i]);
        assert all[i] == ops[i];
      }
      if c in FlagsFor(m, VALUES, o) {
        assert all[|ops|] == o;
      }
    }
  }

  lemma PlainBlockIsReadBack(m: Machine, cb: Cb)
    requires SizedCb(m, cb)
    ensures PlainBlock(m, VALUES, CbRecordOf(cb)) == ReadBackCb(m, cb)
  {
    hide RecordOf, PlainOper, FlagsAdded, SizedOper, ReturnedOper, ReturnedAttr, FlagString, OpersFlags;
    OpersFlagsAdded(m, cb.ops);
    forall i | 0 <= i < |cb.ops|
      ensures PlainOper(m, VALUES, RecordOf(cb.ops[i])) == ReturnedOper(cb.ops[i])
    {
      PlainIsReturned(m, cb.ops[i]);
    }
    if CbText(cb) == [] {
      assert cb.flags == {} by {
        assert forall c :: c in cb.flags ==> c in CbText(cb);
      }
    }
    assert PlainOpers(m, VALUES, RecordsOf(cb.ops)) == ReturnedOpers(cb.ops);
  }

  lemma {:induction false} BlocksFlagsPredicated(m: Machine, cbs: seq<Cb>)
    requires forall i :: 0 <= i < |cbs| ==> SizedCb(m, cbs[i])
    ensures BlocksFlags(m, VALUES, CbRecordsOf(cbs)) == if HasPredicated(cbs) then {HYPERBLOCK} else {}
  {
    hide CbRecordOf, OpersFlags, BlocksFlags, SizedCb, FlagsAdded, HasPredicated;
    if cbs == [] {
      NoBlocksFlags(m);
    } else {
      var n := |cbs| - 1;
      BlocksFlagsPredicated(m, cbs[..n]);
      BlocksFlagsLast(m, cbs);
      BlockPredicated(m, cbs[n]);
      PredicatedSnoc(cbs[..n], cbs[n]);
      assert cbs == cbs[..n] + [cbs[n]];
    }
  }

  lemma NoBlocksFlags(m: Machine)
    ensures BlocksFlags(m, VALUES, CbRecordsOf([])) == {} && !HasPredicated([])
  {
  }

  lemma BlocksFlagsLast(m: Machine, cbs: seq<Cb>)
    requires cbs != []
    ensures var n := |cbs| - 1;
      BlocksFlags(m, VALUES, CbRecordsOf(cbs)) ==
      BlocksFlags(m, VALUES, CbRecordsOf(cbs[..n])) + (OpersFlags(m, VALUES, CbRecordOf(cbs[n]).ops) * {HYPERBLOCK})
  {
    hide CbRecordOf, OpersFlags;
    assert CbRecordsOf(cbs)[..|cbs| - 1] == CbRecordsOf(cbs[..|cbs| - 1]);
  }

  lemma PredicatedSnoc(cbs: seq<Cb>, cb: Cb)
    ensures HasPredicated(cbs + [cb]) <==>
            HasPredicated(cbs) || exists j :: 0 <= j < |cb.ops| && Predicated(VALUES, cb.ops[j])
  {
    hide Predicated;
    var all := cbs + [cb];
    assert all[|cbs|] == cb;
    assert forall i :: 0 <= i < |cbs| ==> all[i] == cbs[i];
  }

  lemma BlockPredicated(m: Machine, cb: Cb)
    requires SizedCb(m, cb)
    ensures OpersFlags(m, VALUES, CbRecordOf(cb).ops) * {HYPERBLOCK} ==
            if exists j :: 0 <= j < |cb.ops| && Predicated(VALUES, cb.ops[j]) then {HYPERBLOCK} else {}
  {
    hide OpersFlags, SizedOper, Predicated, FlagsFor, ReturnedOper, RecordOf;
    OpersFlagsAdded(m, cb.ops);
    forall j | 0 <= j < |cb.ops|
      ensures HYPERBLOCK in FlagsFor(m, VALUES, cb.ops[j]) <==> Predicated(VALUES, cb.ops[j])
    {
      SameFlagsFor(m, cb.ops[j]);
    }
  }

  lemma {:induction false} SameAllIds(cbs: seq<Cb>)
    ensures BlockIds(CbRecordsOf(cbs)) == FnBlockIds(cbs) && AllOperIds(CbRecordsOf(cbs)) == FnOperIds(cbs)
  {
    hide CbRecordOf, OperIds, BlockOperIds;
    if cbs != [] {
      var n := |cbs| - 1;
      SameAllIds(cbs[..n]);
      assert CbRecordsOf(cbs)[..n] == CbRecordsOf(cbs[..n]);
      forall i | 0 <= i < |cbs|
        ensures CbRecordOf(cbs[i]).id == cbs[i].id
      {
        SameBlockIds(cbs[i]);
      }
      SameBlockIds(cbs[n]);
    }
  }

  lemma SameBlockIds(cb: Cb)
    ensures CbRecordOf(cb).id == cb.id && OperIds(CbRecordOf(cb).ops) == BlockOperIds(cb)
  {
  }

  /** What the reader asks of operations does not depend on how it returns their operands. */
  lemma SameDemands(m: Machine, o: Oper)
    ensures DefineOk(m, VALUES, ReturnedOper(o)) <==> DefineOk(m, VALUES, o)
  {
  }

  lemma SameChecks(m: Machine, cbs: seq<Cb>)
    ensures DefinesOk(m, VALUES, ReadBackCbs(m, cbs)) <==> DefinesOk(m, VALUES, cbs)
    ensures HasCall(m, ReadBackCbs(m, cbs)) <==> HasCall(m, cbs)
  {
    hide DefineOk, FlagsAdded, ReturnedOper;
    var back := ReadBackCbs(m, cbs);
    forall i, j | 0 <= i < |cbs| && 0 <= j < |cbs[i].ops|
      ensures back[i].ops[j].opcode == cbs[i].ops[j].opcode
      ensures DefineOk(m, VALUES, back[i].ops[j]) <==> DefineOk(m, VALUES, cbs[i].ops[j])
    {
      SameDemands(m, cbs[i].ops[j]);
      SameOpcode(cbs[i].ops[j]);
    }
  }

  lemma SameOpcode(o: Oper)
    ensures ReturnedOper(o).opcode == o.opcode
  {
  }

  lemma SameLargestId(attrs: seq<Attr>)
    ensures LargestIdGiven(VALUES, ReturnedAttrs(attrs)) <==> LargestIdGiven(VALUES, attrs)
  {
    assert forall i :: 0 <= i < |attrs| ==> ReturnedAttrs(attrs)[i] == ReturnedAttr(attrs[i]);
  }

  /** A function with distinct ids is assembled from its records, or refused. */
  lemma AssembleRecords(m: Machine, fn: Function)
    requires ValidFunction(m, fn) && DistinctFnIds(fn)
    ensures Assemble(m, VALUES, RecordOfFn(fn)) ==
            if DefinesOk(m, VALUES, fn.cbs) && LargestIdGiven(VALUES, fn.attrs) then Some(ReadBack(m, fn)) else None
  {
    hide EnterBlocks, Collected, CbRecordOf, ReadBackCb, DefinesOk, LargestIdGiven, HasCall, HasPredicated;
    hide BlocksFlags, ReturnedAttr, PlainBlock, SizedCb;
    var rs := CbRecordsOf(fn.cbs);
    SameAllIds(fn.cbs);
    DistinctIdsCollect(m, VALUES, fn.flags, rs);
    forall i | 0 <= i < |fn.cbs|
      ensures PlainBlock(m, VALUES, rs[i]) == ReadBackCb(m, fn.cbs[i])
    {
      PlainBlockIsReadBack(m, fn.cbs[i]);
    }
    assert PlainBlocks(m, VALUES, rs) == ReadBackCbs(m, fn.cbs);
    BlocksFlagsPredicated(m, fn.cbs);
    SameChecks(m, fn.cbs);
    SameLargestId(fn.attrs);
  }

  // ----- when nothing changes -----

  lemma SurvivesIsSame(o: Operand)
    ensures Returned(o) == o <==> Survives(o)
  {
  }

  lemma {:induction false} SlotsSame(s: Slots)
    ensures ReturnedSlots(s) == s <==> forall o :: o in Operands(s) ==> Survives(o)
  {
    hide Survives, Returned, ReturnedSlots;
    if s == [] {
      assert ReturnedSlots(s) == [];
    } else {
      SlotsSame(s[1..]);
      ReturnedHead(s);
      SameHead(ReturnedSlots(s), s);
      if s[0].Some? {
        SurvivesIsSame(s[0].value);
      }
    }
  }

  lemma ReturnedHead(s: Slots)
    requires s != []
    ensures ReturnedSlots(s)[0] == ReturnedSlot(s[0]) && ReturnedSlots(s)[1..] == ReturnedSlots(s[1..])
  {
  }

  lemma SameHead<T>(a: seq<T>, b: seq<T>)
    requires a != [] && b != []
    ensures a == b <==> a[0] == b[0] && a[1..] == b[1..]
  {
    assert a == [a[0]] + a[1..] && b == [b[0]] + b[1..];
  }

  lemma {:induction false} AttrsSame(attrs: seq<Attr>)
    ensures ReturnedAttrs(attrs) == attrs <==> forall o :: o in AttrOperands(attrs) ==> Survives(o)
  {
    hide Survives, ReturnedSlots, Operands;
    if attrs != [] {
      var tail := attrs[1..];
      AttrsSame(tail);
      SlotsSame(attrs[0].fields);
      assert attrs == [attrs[0]] + tail;
      assert ReturnedAttrs(attrs) == [ReturnedAttr(attrs[0])] + ReturnedAttrs(tail);
      assert ReturnedAttrs(attrs)[1..] == ReturnedAttrs(tail);
    }
  }

  lemma OperSame(o: Oper)
    ensures ReturnedOper(o) == o <==> forall x :: x in OperOperands(o) ==> Survives(x)
  {
    hide Survives, ReturnedSlots, Operands, ReturnedAttr, AttrOperands;
    SlotsSame(o.src);
    SlotsSame(o.dest);
    SlotsSame(o.pred);
    AttrsSame(o.attrs);
  }

  lemma {:induction false} OpersSame(ops: seq<Oper>)
    ensures ReturnedOpers(ops) == ops <==> forall x :: x in OpersOperands(ops) ==> Survives(x)
  {
    hide Survives, ReturnedOper, OperOperands;
    if ops != [] {
      var tail := ops[1..];
      OpersSame(tail);
      OperSame(ops[0]);
      assert ops == [ops[0]] + tail;
      assert ReturnedOpers(ops) == [ReturnedOper(ops[0])] + ReturnedOpers(tail);
      assert ReturnedOpers(ops)[1..] == ReturnedOpers(tail);
    }
  }

  /** A block is read back unchanged iff its operands survive and it has all flags the reader sets. */
  lemma CbSame(m: Machine, cb: Cb)
    ensures ReadBackCb(m, cb) == cb <==>
            && (forall x :: x in AttrOperands(cb.attrs) + OpersOperands(cb.ops) ==> Survives(x))
            && FlagsAdded(m, cb.ops) <= cb.flags
  {
    hide Survives, ReturnedOper, ReturnedAttr, AttrOperands, OpersOperands, FlagsAdded;
    AttrsSame(cb.attrs);
    OpersSame(cb.ops);
    assert cb.flags + FlagsAdded(m, cb.ops) == cb.flags <==> FlagsAdded(m, cb.ops) <= cb.flags;
    assert forall x :: x in AttrOperands(cb.attrs) + OpersOperands(cb.ops) <==>
             x in AttrOperands(cb.attrs) || x in OpersOperands(cb.ops);
  }

  lemma {:induction false} CbsSame(m: Machine, cbs: seq<Cb>)
    ensures ReadBackCbs(m, cbs) == cbs <==>
            && (forall x :: x in CbsOperands(cbs) ==> Survives(x))
            && (forall i :: 0 <= i < |cbs| ==> FlagsAdded(m, cbs[i].ops) <= cbs[i].flags)
  {
    hide Survives, ReadBackCb, ReadBackCbs, AttrOperands, OpersOperands, FlagsAdded;
    if cbs == [] {
      assert ReadBackCbs(m, cbs) == [];
    } else {
      var tail := cbs[1..];
      CbsSame(m, tail);
      CbSame(m, cbs[0]);
      ReadBackHead(m, cbs);
      SameHead(ReadBackCbs(m, cbs), cbs);
      assert forall i :: 0 <= i < |tail| ==> tail[i] == cbs[i + 1];
      assert forall i :: 1 <= i < |cbs| ==> cbs[i] == tail[i - 1];
      assert forall x :: x in CbsOperands(cbs) <==>
               x in AttrOperands(cbs[0].attrs) + OpersOperands(cbs[0].ops) || x in CbsOperands(tail);
    }
  }

  lemma ReadBackHead(m: Machine, cbs: seq<Cb>)
    requires cbs != []
    ensures ReadBackCbs(m, cbs)[0] == ReadBackCb(m, cbs[0]) && ReadBackCbs(m, cbs)[1..] == ReadBackCbs(m, cbs[1..])
  {
    hide ReadBackCb;
  }

  lemma FunctionSame(m: Machine, fn: Function)
    ensures ReadBack(m, fn) == fn <==> OperandsSurvive(fn) && FlagsComplete(m, fn)
  {
    hide Survives, ReadBackCb, AttrOperands, CbsOperands, FlagsAdded, ReturnedAttr, HasCall, HasPredicated;
    AttrsSame(fn.attrs);
    CbsSame(m, fn.cbs);
    assert forall x :: x in AllOperands(fn) <==> x in AttrOperands(fn.attrs) || x in CbsOperands(fn.cbs);
    LeafSame(fn.flags, HasPredicated(fn.cbs), HasCall(m, fn.cbs));
  }

  lemma LeafSame(flags: set<Byte>, hyper: bool, call: bool)
    ensures var f := flags + if hyper then {HYPERBLOCK} else {};
      (if call then f - {LEAF} else f + {LEAF}) == flags <==>
      (hyper ==> HYPERBLOCK in flags) && (LEAF in flags <==> !call)
  {
    var f := flags + if hyper then {HYPERBLOCK} else {};
    var g := if call then f - {LEAF} else f + {LEAF};
    assert HYPERBLOCK in g <==> hyper || HYPERBLOCK in flags;
    assert LEAF in g <==> !call;
    assert forall c :: c != LEAF && c != HYPERBLOCK ==> (c in g <==> c in flags);
  }

  // ----- what is read, field by field -----

  predicate HasOpcode(cb: Cb, opcode: Text) {
    exists j :: 0 <= j < |cb.ops| && cb.ops[j].opcode == opcode
  }

  /** Some operation is predicated: its first predicate slot is filled. */
  predicate HasFilledPred(cb: Cb) {
    exists j :: 0 <= j < |cb.ops| && cb.ops[j].pred != [] && cb.ops[j].pred[0].Some?
  }

  /** The flags of a block that was read, told by the block that was written. */
  ghost predicate CbFlagsFollow(m: Machine, cb: Cb, back: Cb) {
    var r, i, h := 'R' as int, 'I' as int, 'H' as int;
    && (r in back.flags <==> r in cb.flags || HasOpcode(cb, m.prologue))
    && (i in back.flags <==> i in cb.flags || (m.epilogue != m.prologue && HasOpcode(cb, m.epilogue)))
    && (h in back.flags <==> h in cb.flags || HasFilledPred(cb))
    && (forall c :: c !in {r, i, h} ==> (c in back.flags <==> c in cb.flags))
  }

  /** The flags of a function that was read: hyperblock where a block has a predicated operation,
      leaf where no operation is a call. */
  ghost predicate FnFlagsFollow(m: Machine, fn: Function, back: Function) {
    var h, l := 'H' as int, 'L' as int;
    && (h in back.flags <==> h in fn.flags || exists i :: 0 <= i < |fn.cbs| && HasFilledPred(fn.cbs[i]))
    && (l in back.flags <==>
        forall i, j :: 0 <= i < |fn.cbs| && 0 <= j < |fn.cbs[i].ops| ==> fn.cbs[i].ops[j].opcode !in m.calls)
    && (forall c :: c !in {h, l} ==> (c in back.flags <==> c in fn.flags))
  }

  /** What is read apart from flags: the same blocks and operations, operand by operand. */
  ghost predicate ContentsFollow(fn: Function, back: Function) {
    && back.name == fn.name && back.weight == fn.weight && |back.cbs| == |fn.cbs|
    && back.attrs == ReturnedAttrs(fn.attrs)
    && forall i :: 0 <= i < |fn.cbs| ==> CbContentsFollow(fn.cbs[i], back.cbs[i])
  }

  ghost predicate CbContentsFollow(cb: Cb, back: Cb) {
    && back.id == cb.id && back.weight == cb.weight && back.flows == cb.flows && |back.ops| == |cb.ops|
    && back.attrs == ReturnedAttrs(cb.attrs)
    && forall j :: 0 <= j < |cb.ops| ==> OperContentsFollow(cb.ops[j], back.ops[j])
  }

  ghost predicate OperContentsFollow(o: Oper, back: Oper) {
    && back.id == o.id && back.opcode == o.opcode && back.com == o.com && back.flags == o.flags
    && back.src == ReturnedSlots(o.src) && back.dest == ReturnedSlots(o.dest) && back.pred == ReturnedSlots(o.pred)
    && back.attrs == ReturnedAttrs(o.attrs)
  }

  lemma CbFlagsRead(m: Machine, cb: Cb)
    ensures CbFlagsFollow(m, cb, ReadBackCb(m, cb))
  {
    hide ReturnedAttr, ReturnedOper, FlagsFor, FlagsAdded;
    FlagsAddedIs(m, cb);
  }

  lemma FlagsAddedIs(m: Machine, cb: Cb)
    ensures var f := FlagsAdded(m, cb.ops);
      && f <= {PROLOGUE, EPILOGUE, HYPERBLOCK}
      && (PROLOGUE in f <==> HasOpcode(cb, m.prologue))
      && (EPILOGUE in f <==> m.epilogue != m.prologue && HasOpcode(cb, m.epilogue))
      && (HYPERBLOCK in f <==> HasFilledPred(cb))
  {
    hide FlagsFor;
    forall c | c in {PROLOGUE, EPILOGUE, HYPERBLOCK}
      ensures c in FlagsAdded(m, cb.ops) <==> exists i :: 0 <= i < |cb.ops| && c in FlagsFor(m, VALUES, cb.ops[i])
    {
    }
  }

  lemma FnFlagsRead(m: Machine, fn: Function)
    ensures FnFlagsFollow(m, fn, ReadBack(m, fn))
  {
    hide ReturnedAttr, ReadBackCbs;
  }

  lemma ContentsRead(m: Machine, fn: Function)
    ensures ContentsFollow(fn, ReadBack(m, fn))
  {
    hide FlagsAdded, ReturnedAttr, ReturnedSlot, HasPredicated, HasCall;
  }

  /** A function with distinct ids that the reader accepts comes back with the flags it should, and
      apart from them with the same contents. */
  lemma ReadFollows(m: Machine, fn: Function, rest: seq<Byte>)
    requires ValidFunction(m, fn) && DistinctFnIds(fn) && Accepted(m, fn)
    ensures var r := DecodeFunction(m, EncodeFunction(fn) + rest);
      && r.Got? && r.rest == rest && ContentsFollow(fn, r.value) && FnFlagsFollow(m, fn, r.value)
      && forall i :: 0 <= i < |fn.cbs| ==> CbFlagsFollow(m, fn.cbs[i], r.value.cbs[i])
  {
    hide EncodeFunction, DecodeFunction, ReadBackCb, NonZeroOperIds, Accepted, DistinctFnIds, SizedFunction, TablesOf;
    hide CbFlagsFollow, FnFlagsFollow;
    FunctionRoundTrip(m, fn, rest);
    ContentsRead(m, fn);
    FnFlagsRead(m, fn);
    forall i | 0 <= i < |fn.cbs|
      ensures CbFlagsFollow(m, fn.cbs[i], ReadBack(m, fn).cbs[i])
    {
      CbFlagsRead(m, fn.cbs[i]);
    }
  }

  /** What the reader accepts, field by field: no operation has id 0, a define whose first
      destination is a frame-size macro has an integer as its first source, and an attribute for
      the largest block id has a first field. */
  lemma AcceptedExactly(m: Machine, fn: Function)
    ensures Accepted(m, fn) <==>
            && (forall i, j :: 0 <= i < |fn.cbs| && 0 <= j < |fn.cbs[i].ops| ==>
                  var o := fn.cbs[i].ops[j];
                  && o.id != 0
                  && (&& o.opcode == m.define && o.dest != [] && o.dest[0].Some? && o.dest[0].value.Macro?
                      && o.dest[0].value.name in m.sizeMacros ==>
                        o.src != [] && o.src[0].Some? && o.src[0].value.Immed?))
            && (forall i :: 0 <= i < |fn.attrs| && fn.attrs[i].name == MAX_CB_ID ==>
                  fn.attrs[i].fields != [] && fn.attrs[i].fields[0].Some?)
  {
  }

  // ----- the whole way -----

  /** A written function with distinct operation and block ids is read back, byte for byte consumed,
      with its operands as the reader makes them and every flag the reader sets, or refused; it is
      the same function exactly when it is accepted, its operands survive and its flags are
      complete. */
  lemma FunctionRoundTrip(m: Machine, fn: Function, rest: seq<Byte>)
    requires ValidFunction(m, fn)
    ensures Distinct(TablesOf(fn).strings) && Distinct(TablesOf(fn).operands)
    ensures DistinctFnIds(fn) ==>
              DecodeFunction(m, EncodeFunction(fn) + rest) ==
              if Accepted(m, fn) then Got(ReadBack(m, fn), rest) else Fail
    ensures DistinctFnIds(fn) ==>
              (DecodeFunction(m, EncodeFunction(fn) + rest) == Got(fn, rest)
               <==> Accepted(m, fn) && OperandsSurvive(fn) && FlagsComplete(m, fn))
  {
    hide EncodeFunction, ParseFunction, Assemble, ReadBack, NonZeroOperIds, DefinesOk, LargestIdGiven, TablesOf;
    hide SizedCb, OperandsSurvive, FlagsComplete, DistinctFnIds, RecordOfFn;
    hide AllNames, AllOperands, AttrsKnown, CbsKnown;
    OwnTables(m, fn);
    ParseRoundTrip(m, fn, rest);
    if DistinctFnIds(fn) {
      AssembleRecords(m, fn);
      FunctionSame(m, fn);
    }
  }

  /** With a repeated id it may not come back at all: when the last operation of a function with one
      block has the id of the one before it, the reader links it to itself and never returns. */
  lemma RepeatedIdIsNotRead(m: Machine, fn: Function, o: Oper, rest: seq<Byte>)
    requires |fn.cbs| == 1 && fn.cbs[0].ops != [] && o.id == fn.cbs[0].ops[|fn.cbs[0].ops| - 1].id
    requires DistinctFnIds(fn)
    requires ValidFunction(m, fn.(cbs := [fn.cbs[0].(ops := fn.cbs[0].ops + [o])]))
    ensures DecodeFunction(m, EncodeFunction(fn.(cbs := [fn.cbs[0].(ops := fn.cbs[0].ops + [o])])) + rest) == Fail
  {
    hide EncodeFunction, ParseFunction, EnterBlocks, Collected, NonZeroOperIds, LargestIdGiven, TablesOf, FlagString;
    hide SizedCb, ReturnedAttr, RecordOf, DistinctIds;
    var cb := fn.cbs[0];
    var fn' := fn.(cbs := [cb.(ops := cb.ops + [o])]);
    ParseRoundTrip(m, fn', rest);
    SameAllIds(fn.cbs);
    var r, x := CbRecordOf(cb), RecordOf(o);
    assert CbRecordsOf(fn.cbs) == [r];
    assert RecordsOf(cb.ops + [o]) == r.ops + [x];
    assert CbRecordsOf(fn'.cbs) == [r.(ops := r.ops + [x])];
    DistinctOne(fn, r);
    SameId(o);
    SameId(cb.ops[|cb.ops| - 1]);
    RepeatedOperIsCircle(m, VALUES, fn.flags, r, x);
  }

  lemma SameId(o: Oper)
    ensures RecordOf(o).id == o.id
  {
  }

  lemma DistinctOne(fn: Function, r: CbRec)
    requires CbRecordsOf(fn.cbs) == [r] && DistinctFnIds(fn)
    requires BlockIds(CbRecordsOf(fn.cbs)) == FnBlockIds(fn.cbs) && AllOperIds(CbRecordsOf(fn.cbs)) == FnOperIds(fn.cbs)
    ensures DistinctIds([r])
  {
  }
}
