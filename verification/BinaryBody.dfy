/** Function bodies in the binary format: blocks of operation records between the tables and
    the closing "end". */
module BinaryBody {
  import opened Collections
  import opened BinaryCodec
  import opened Flags
  import opened BinaryOperand
  import opened BinaryOper

  /** An outgoing flow arc; weights are carried as their printed text. */
  datatype Flow = Flow(cc: int, dst: int, weight: Text)

  datatype Block<S> = Cb(id: int, flags: set<Byte>, weight: Text, flows: seq<Flow>,
                         attrs: seq<Attribute<S>>, ops: seq<Operation<S>>)

  /** What one record says of a block. */
  datatype BlockRecord<S> = CbRecord(id: int, flags: Option<set<Byte>>, weight: Text, flows: seq<Flow>,
                                     attrs: seq<Attribute<S>>, ops: seq<OperRecord<S>>)

  type Cb = Block<Slot>
  type CbRec = BlockRecord<Slot>

  function RecordsOf(ops: seq<Oper>): (rs: seq<Record>)
    ensures |rs| == |ops|
    ensures forall i :: 0 <= i < |ops| ==> rs[i] == RecordOf(ops[i])
  {
    seq(|ops|, i requires 0 <= i < |ops| => RecordOf(ops[i]))
  }

  function CbText(cb: Cb): Text {
    FlagString(CB_FLAGS, cb.flags)
  }

  /** The record that is read for a block. */
  function CbRecordOf(cb: Cb): CbRec {
    CbRecord(cb.id, FlagsNamed(CbText(cb), cb.flags), cb.weight, cb.flows, ReturnedAttrs(cb.attrs), RecordsOf(cb.ops))
  }

  function CbRecordsOf(cbs: seq<Cb>): (rs: seq<CbRec>)
    ensures |rs| == |cbs|
    ensures forall i :: 0 <= i < |cbs| ==> rs[i] == CbRecordOf(cbs[i])
  {
    seq(|cbs|, i requires 0 <= i < |cbs| => CbRecordOf(cbs[i]))
  }

  // ----- operation lists -----

  predicate NonZeroIds(ops: seq<Oper>) {
    forall i :: 0 <= i < |ops| ==> ops[i].id != 0
  }

  predicate ValidOpers(m: Machine, t: Tables, ops: seq<Oper>) {
    |ops| <= MAX_INT && forall i :: 0 <= i < |ops| ==> ValidOper(m, t, ops[i])
  }

  /** The flagged encoding of zero is the byte that announces a parent record. */
  lemma ZeroIdIsParentMark(id: nat, tail: seq<Byte>)
    ensures (EncodeSpecial(id) + tail)[0] == PARENT_MARK <==> id == 0
  {
  }

  lemma {:induction false} OpersStart(t: Tables, ops: seq<Oper>, rest: seq<Byte>)
    requires PeekSpecial(rest) && forall i :: 0 <= i < |ops| ==> ops[i].id >= 0
    ensures PeekSpecial(EncodeOpers(t, ops) + rest)
  {
    hide EncodeInt, EncodeSpecial, SrcPart, PeekSpecial, EncodeCom;
    if ops == [] {
      assert [] + rest == rest;
    } else {
      var o := ops[0];
      var body := EncodeInt(Find(t.strings, o.opcode)) + (EncodeCom(o.com) + SrcPart(t, o));
      Assoc(EncodeSpecial(o.id), body, EncodeOpers(t, ops[1..]) + rest);
      Assoc(EncodeOper(t, o), EncodeOpers(t, ops[1..]), rest);
      SpecialBitSeparates(o.id, body + (EncodeOpers(t, ops[1..]) + rest));
    }
  }

  /** The records of an operation list are read exactly when no operation has id 0; otherwise the
      reader takes the first such record for a parent record and gives up. */
  lemma {:induction false} OpersRoundTrip(m: Machine, t: Tables, ops: seq<Oper>, rest: seq<Byte>)
    requires ValidOpers(m, t, ops) && PeekSpecial(rest)
    ensures DecodeOpers(m, Reread(t), |ops|, EncodeOpers(t, ops) + rest) ==
            if NonZeroIds(ops) then Got(RecordsOf(ops), rest) else Fail
    decreases |ops|
  {
    hide EncodeOper, DecodeOper, PeekSpecial, Reread, RecordOf;
    if ops == [] {
      assert [] + rest == rest;
    } else {
      var o, others := ops[0], ops[1..];
      var tail := EncodeOpers(t, others) + rest;
      assert forall i :: 0 <= i < |others| ==> others[i] == ops[i + 1];
      OpersStart(t, others, rest);
      OpersRoundTrip(m, t, others, rest);
      OpersStep(m, t, o, others, rest);
      assert ops == [o] + others;
    }
  }

  lemma OpersStep(m: Machine, t: Tables, o: Oper, others: seq<Oper>, rest: seq<Byte>)
    requires ValidOper(m, t, o) && PeekSpecial(EncodeOpers(t, others) + rest)
    requires DecodeOpers(m, Reread(t), |others|, EncodeOpers(t, others) + rest) ==
             if NonZeroIds(others) then Got(RecordsOf(others), rest) else Fail
    ensures var ops := [o] + others;
      DecodeOpers(m, Reread(t), |ops|, EncodeOpers(t, ops) + rest) ==
      if NonZeroIds(ops) then Got(RecordsOf(ops), rest) else Fail
  {
    hide EncodeOper, DecodeOper, EncodeOpers, NonZeroIds, PeekSpecial, ValidOper, Reread, RecordOf;
    assert RecordsOf([o] + others) == [RecordOf(o)] + RecordsOf(others);
    var tail := EncodeOpers(t, others) + rest;
    FirstOper(m, t, o, |others|, tail);
    EncodeOpersCons(t, o, others, rest);
    NonZeroIdsCons(o, others);
  }

  /** A parent record, announced by its mark, is read and set aside; it does not count. */
  lemma ParentIsSetAside(m: Machine, t: Tables, parent: Oper, n: nat, tail: seq<Byte>)
    requires ValidOper(m, t, parent) && PeekSpecial(tail) && n > 0
    ensures DecodeOpers(m, Reread(t), n, [0xC0] + (EncodeOper(t, parent) + tail)) == DecodeOpers(m, Reread(t), n, tail)
  {
    hide EncodeOper, DecodeOper, Reread, RecordOf, PeekSpecial, ValidOper;
    OperRoundTrip(m, t, parent, tail);
    assert ([0xC0] + (EncodeOper(t, parent) + tail))[1..] == EncodeOper(t, parent) + tail;
  }

  lemma FirstOper(m: Machine, t: Tables, o: Oper, n: nat, tail: seq<Byte>)
    requires ValidOper(m, t, o) && PeekSpecial(tail)
    ensures DecodeOpers(m, Reread(t), n + 1, EncodeOper(t, o) + tail) ==
            if o.id == 0 then Fail else
            match DecodeOpers(m, Reread(t), n, tail)
            case Fail => Fail
            case Got(ops, rest) => Got([RecordOf(o)] + ops, rest)
  {
    hide EncodeOper, DecodeOper, DecodeOpers, Reread, RecordOf, PeekSpecial, ValidOper;
    OperRoundTrip(m, t, o, tail);
    IdIsNat(m, t, o);
    HeadByte(t, o, tail);
    DecodeOpersCons(m, Reread(t), n, EncodeOper(t, o) + tail, RecordOf(o), tail);
  }

  lemma IdIsNat(m: Machine, t: Tables, o: Oper)
    requires ValidOper(m, t, o)
    ensures o.id >= 0
  {
  }

  lemma EncodeOpersCons(t: Tables, o: Oper, others: seq<Oper>, rest: seq<Byte>)
    ensures EncodeOpers(t, [o] + others) + rest == EncodeOper(t, o) + (EncodeOpers(t, others) + rest)
  {
    hide EncodeOper;
    assert ([o] + others)[1..] == others;
    Assoc(EncodeOper(t, o), EncodeOpers(t, others), rest);
  }

  lemma NonZeroIdsCons(o: Oper, others: seq<Oper>)
    ensures NonZeroIds([o] + others) <==> o.id != 0 && NonZeroIds(others)
  {
    var ops := [o] + others;
    assert ops[0] == o;
    assert forall i :: 0 <= i < |others| ==> others[i] == ops[i + 1];
  }

  lemma DecodeOpersCons(m: Machine, t: Tables, n: nat, bs: seq<Byte>, o: Record, tail: seq<Byte>)
    requires bs != [] && DecodeOper(m, t, bs) == Got(o, tail)
    requires bs[0] == PARENT_MARK ==> !PeekSpecial(bs[1..])
    ensures DecodeOpers(m, t, n + 1, bs) ==
            if bs[0] == PARENT_MARK then Fail else
            match DecodeOpers(m, t, n, tail)
            case Fail => Fail
            case Got(ops, rest) => Got([o] + ops, rest)
  {
  }

  /** The first byte of a record, and what the parent branch would see behind it. */
  lemma HeadByte(t: Tables, o: Oper, tail: seq<Byte>)
    requires o.id >= 0
    ensures var bs := EncodeOper(t, o) + tail;
      && bs != []
      && (bs[0] == PARENT_MARK <==> o.id == 0)
      && (o.id == 0 ==> !PeekSpecial(bs[1..]))
  {
    var com := EncodeCom(o.com) + SrcPart(t, o);
    var opcode := EncodeInt(Find(t.strings, o.opcode)) + com;
    Assoc(EncodeSpecial(o.id), opcode, tail);
    Assoc(EncodeInt(Find(t.strings, o.opcode)), com, tail);
    ZeroIdIsParentMark(o.id, opcode + tail);
    SpecialBitSeparates(Find(t.strings, o.opcode), com + tail);
    if o.id == 0 {
      assert (EncodeSpecial(0) + (opcode + tail))[1..] == opcode + tail;
    }
  }

  // ----- flow arcs -----

  predicate ValidFlow(f: Flow) {
    -MAX_INT <= f.cc <= MAX_INT && -MAX_INT <= f.dst <= MAX_INT && IsText(f.weight)
  }

  predicate ValidFlows(flows: seq<Flow>) {
    forall i :: 0 <= i < |flows| ==> ValidFlow(flows[i])
  }

  function EncodeFlows(flows: seq<Flow>): seq<Byte> {
    if flows == [] then []
    else
      EncodeInt(flows[0].cc) +
      (EncodeInt(flows[0].dst) + (EncodeString(flows[0].weight) + EncodeFlows(flows[1..])))
  }

  function DecodeFlow(bs: seq<Byte>): (r: Read<Flow>)
    ensures r.Got? ==> |r.rest| < |bs|
  {
    var cc := DecodeInt(bs);
    if cc.Fail? then Fail else
    var dst := DecodeInt(cc.rest);
    if dst.Fail? then Fail else
    match DecodeString(dst.rest)
    case Fail => Fail
    case Got(weight, rest) => Got(Flow(cc.value, dst.value, weight), rest)
  }

  function DecodeFlows(n: int, bs: seq<Byte>): (r: Read<seq<Flow>>)
    ensures r.Got? ==> |r.rest| <= |bs|
    decreases n
  {
    if n <= 0 then Got([], bs)
    else
      var first := DecodeFlow(bs);
      if first.Fail? then Fail else
      match DecodeFlows(n - 1, first.rest)
      case Fail => Fail
      case Got(flows, rest) => Got([first.value] + flows, rest)
  }

  lemma DecodeFlowsCons(bs: seq<Byte>, f: Flow, r1: seq<Byte>, r2: seq<Byte>, r3: seq<Byte>,
                        flows: seq<Flow>, rest: seq<Byte>)
    requires DecodeInt(bs) == Got(f.cc, r1) && DecodeInt(r1) == Got(f.dst, r2)
    requires DecodeString(r2) == Got(f.weight, r3) && DecodeFlows(|flows|, r3) == Got(flows, rest)
    ensures DecodeFlows(|flows| + 1, bs) == Got([f] + flows, rest)
  {
    hide DecodeInt, DecodeString;
  }

  lemma {:induction false} FlowsRoundTrip(flows: seq<Flow>, rest: seq<Byte>)
    requires ValidFlows(flows)
    ensures DecodeFlows(|flows|, EncodeFlows(flows) + rest) == Got(flows, rest)
    decreases |flows|
  {
    hide DecodeInt, DecodeString, EncodeInt, EncodeString;
    if flows == [] {
      assert [] + rest == rest;
    } else {
      var f, others := flows[0], flows[1..];
      var r3 := EncodeFlows(others) + rest;
      var r2 := EncodeString(f.weight) + r3;
      var r1 := EncodeInt(f.dst) + r2;
      Assoc3(EncodeInt(f.cc), EncodeInt(f.dst), EncodeString(f.weight), EncodeFlows(others), rest);
      IntRoundTrip(f.cc, r1);
      IntRoundTrip(f.dst, r2);
      StringRoundTrip(f.weight, r3);
      FlowsRoundTrip(others, rest);
      DecodeFlowsCons(EncodeInt(f.cc) + r1, f, r1, r2, r3, others, rest);
      assert flows == [f] + others;
    }
  }

  lemma Assoc3(a: seq<Byte>, b: seq<Byte>, c: seq<Byte>, d: seq<Byte>, e: seq<Byte>)
    ensures a + (b + (c + d)) + e == a + (b + (c + (d + e)))
  {
  }

  // ----- blocks -----

  predicate ValidCb(m: Machine, t: Tables, cb: Cb) {
    && ValidTables(t)
    && 0 <= cb.id <= MAX_INT
    && (CbText(cb) != [] ==> CbText(cb) in t.strings) && (forall c :: c in cb.flags ==> c in CB_FLAGS)
    && IsText(cb.weight)
    && |cb.flows| <= MAX_INT && ValidFlows(cb.flows)
    && |cb.attrs| <= MAX_INT && (forall i :: 0 <= i < |cb.attrs| ==> ValidAttr(t, cb.attrs[i]))
    && ValidOpers(m, t, cb.ops)
  }

  /** Header of a block: everything before its lists. */
  function EncodeHeader(t: Tables, cb: Cb): seq<Byte> {
    EncodeSpecial(cb.id) + (EncodeInt(FlagId(t, CbText(cb))) + (EncodeString(cb.weight) +
      (EncodeInt(|cb.flows|) + (EncodeInt(|cb.attrs|) + EncodeInt(|cb.ops|)))))
  }

  function EncodeCb(t: Tables, cb: Cb): seq<Byte> {
    EncodeHeader(t, cb) + (EncodeFlows(cb.flows) + (EncodeAttrs(t, cb.attrs) + EncodeOpers(t, cb.ops)))
  }

  datatype Header = Header(id: int, flags: Option<set<Byte>>, weight: Text, flows: int, attrs: int, ops: int)

  function DecodeHeader(t: Tables, bs: seq<Byte>): (r: Read<Header>)
    ensures r.Got? ==> |r.rest| < |bs|
  {
    if !PeekSpecial(bs) then Fail else
    var id := DecodeInt(bs);
    if id.Fail? || id.value < 0 then Fail else
    var flags := DecodeFlags(CB_FLAGS, t, id.rest);
    if flags.Fail? then Fail else
    var weight := DecodeString(flags.rest);
    if weight.Fail? then Fail else
    var nf := DecodeInt(weight.rest);
    if nf.Fail? then Fail else
    var na := DecodeInt(nf.rest);
    if na.Fail? then Fail else
    var no := DecodeInt(na.rest);
    if no.Fail? then Fail else
    Got(Header(id.value, flags.value, weight.value, nf.value, na.value, no.value), no.rest)
  }

  /** How often a counting loop runs. */
  function Count(n: int): nat {
    if n < 0 then 0 else n
  }

  function DecodeCb(m: Machine, t: Tables, bs: seq<Byte>): (r: Read<CbRec>)
    ensures r.Got? ==> |r.rest| < |bs|
  {
    var h := DecodeHeader(t, bs);
    if h.Fail? then Fail else
    var flows := DecodeFlows(h.value.flows, h.rest);
    if flows.Fail? then Fail else
    var attrs := DecodeAttrs(t, h.value.attrs, flows.rest);
    if attrs.Fail? then Fail else
    match DecodeOpers(m, t, Count(h.value.ops), attrs.rest)
    case Fail => Fail
    case Got(ops, rest) =>
      Got(CbRecord(h.value.id, h.value.flags, h.value.weight, flows.value, attrs.value, ops), rest)
  }

  lemma HeaderRoundTrip(m: Machine, t: Tables, cb: Cb, rest: seq<Byte>)
    requires ValidCb(m, t, cb)
    ensures DecodeHeader(Reread(t), EncodeHeader(t, cb) + rest) ==
            Got(Header(cb.id, FlagsNamed(CbText(cb), cb.flags), cb.weight, |cb.flows|, |cb.attrs|, |cb.ops|), rest)
    ensures PeekSpecial(EncodeHeader(t, cb) + rest)
  {
    hide DecodeInt, DecodeString, EncodeInt, EncodeSpecial, EncodeString, PeekSpecial, ValidFlows, ValidAttr, ValidOper;
    hide DecodeFlags, Reread, FlagString, AllUpper, FlagsNamed;
    var r5 := EncodeInt(|cb.ops|) + rest;
    var r4 := EncodeInt(|cb.attrs|) + r5;
    var r3 := EncodeInt(|cb.flows|) + r4;
    var r2 := EncodeString(cb.weight) + r3;
    var r1 := EncodeInt(FlagId(t, CbText(cb))) + r2;
    Assoc3(EncodeString(cb.weight), EncodeInt(|cb.flows|), EncodeInt(|cb.attrs|), EncodeInt(|cb.ops|), rest);
    Assoc(EncodeInt(FlagId(t, CbText(cb))), EncodeString(cb.weight) +
          (EncodeInt(|cb.flows|) + (EncodeInt(|cb.attrs|) + EncodeInt(|cb.ops|))), rest);
    Assoc(EncodeSpecial(cb.id), EncodeInt(FlagId(t, CbText(cb))) + (EncodeString(cb.weight) +
          (EncodeInt(|cb.flows|) + (EncodeInt(|cb.attrs|) + EncodeInt(|cb.ops|)))), rest);
    SpecialRoundTrip(cb.id, r1);
    SpecialBitSeparates(cb.id, r1);
    OrdersAreUpper();
    FlagIdRoundTrip(CB_FLAGS, t, cb.flags, r2);
    StringRoundTrip(cb.weight, r3);
    IntRoundTrip(|cb.flows|, r4);
    IntRoundTrip(|cb.attrs|, r5);
    IntRoundTrip(|cb.ops|, rest);
  }

  lemma CbRoundTrip(m: Machine, t: Tables, cb: Cb, rest: seq<Byte>)
    requires ValidCb(m, t, cb) && PeekSpecial(rest)
    ensures DecodeCb(m, Reread(t), EncodeCb(t, cb) + rest) ==
            if NonZeroIds(cb.ops) then Got(CbRecordOf(cb), rest) else Fail
    ensures PeekSpecial(EncodeCb(t, cb) + rest)
  {
    hide Reread, FlagsNamed, CbText, ReturnedAttr, RecordOf, NonZeroIds;
    hide EncodeHeader, DecodeHeader, EncodeFlows, DecodeFlows, EncodeAttrs, DecodeAttrs;
    hide EncodeOpers, DecodeOpers, PeekSpecial;
    var r3 := EncodeOpers(t, cb.ops) + rest;
    var r2 := EncodeAttrs(t, cb.attrs) + r3;
    var r1 := EncodeFlows(cb.flows) + r2;
    Assoc3(EncodeHeader(t, cb), EncodeFlows(cb.flows), EncodeAttrs(t, cb.attrs), EncodeOpers(t, cb.ops), rest);
    HeaderRoundTrip(m, t, cb, r1);
    FlowsRoundTrip(cb.flows, r2);
    AttrsRoundTrip(t, cb.attrs, r3);
    OpersRoundTrip(m, t, cb.ops, rest);
  }

  // ----- bodies -----

  const END: Text := ['e' as int, 'n' as int, 'd' as int]

  predicate ValidCbs(m: Machine, t: Tables, cbs: seq<Cb>) {
    forall i :: 0 <= i < |cbs| ==> ValidCb(m, t, cbs[i])
  }

  function EncodeBody(t: Tables, cbs: seq<Cb>): seq<Byte> {
    if cbs == [] then EncodeString(END) else EncodeCb(t, cbs[0]) + EncodeBody(t, cbs[1..])
  }

  function DecodeBody(m: Machine, t: Tables, n: nat, bs: seq<Byte>): (r: Read<seq<CbRec>>) {
    if n == 0 then
      match DecodeString(bs)
      case Fail => Fail
      case Got(s, rest) => if s == END then Got([], rest) else Fail
    else
      match DecodeCb(m, t, bs)
      case Fail => Fail
      case Got(cb, tail) =>
        match DecodeBody(m, t, n - 1, tail)
        case Fail => Fail
        case Got(cbs, rest) => Got([cb] + cbs, rest)
  }

  predicate NonZeroOperIds(cbs: seq<Cb>) {
    forall i :: 0 <= i < |cbs| ==> NonZeroIds(cbs[i].ops)
  }

  /** The records of a whole body are read, byte for byte consumed, exactly when no operation has
      id 0. */
  lemma {:induction false} BodyRoundTrip(m: Machine, t: Tables, cbs: seq<Cb>, rest: seq<Byte>)
    requires ValidCbs(m, t, cbs)
    ensures DecodeBody(m, Reread(t), |cbs|, EncodeBody(t, cbs) + rest) ==
            if NonZeroOperIds(cbs) then Got(CbRecordsOf(cbs), rest) else Fail
    ensures PeekSpecial(EncodeBody(t, cbs) + rest)
    decreases |cbs|
  {
    hide EncodeCb, DecodeCb, PeekSpecial, ValidCb, Reread, CbRecordOf;
    if cbs == [] {
      EndRoundTrip(rest);
    } else {
      var cb, others := cbs[0], cbs[1..];
      assert forall i :: 0 <= i < |others| ==> others[i] == cbs[i + 1];
      BodyRoundTrip(m, t, others, rest);
      BodyStep(m, t, cb, others, rest);
      EncodeBodyCons(t, cb, others, rest);
      FirstCb(m, t, cb, |others|, EncodeBody(t, others) + rest);
      assert cbs == [cb] + others;
    }
  }

  lemma EndRoundTrip(rest: seq<Byte>)
    ensures DecodeString(EncodeString(END) + rest) == Got(END, rest)
    ensures PeekSpecial(EncodeString(END) + rest)
  {
    StringRoundTrip(END, rest);
  }

  lemma BodyStep(m: Machine, t: Tables, cb: Cb, others: seq<Cb>, rest: seq<Byte>)
    requires ValidCb(m, t, cb) && PeekSpecial(EncodeBody(t, others) + rest)
    requires DecodeBody(m, Reread(t), |others|, EncodeBody(t, others) + rest) ==
             if NonZeroOperIds(others) then Got(CbRecordsOf(others), rest) else Fail
    ensures var cbs := [cb] + others;
      DecodeBody(m, Reread(t), |cbs|, EncodeBody(t, cbs) + rest) ==
      if NonZeroOperIds(cbs) then Got(CbRecordsOf(cbs), rest) else Fail
  {
    hide EncodeCb, DecodeCb, PeekSpecial, ValidCb, DecodeBody, EncodeBody, NonZeroOperIds, Reread, CbRecordOf;
    assert CbRecordsOf([cb] + others) == [CbRecordOf(cb)] + CbRecordsOf(others);
    EncodeBodyCons(t, cb, others, rest);
    FirstCb(m, t, cb, |others|, EncodeBody(t, others) + rest);
    NonZeroOperIdsCons(cb, others);
  }

  lemma EncodeBodyCons(t: Tables, cb: Cb, others: seq<Cb>, rest: seq<Byte>)
    ensures EncodeBody(t, [cb] + others) + rest == EncodeCb(t, cb) + (EncodeBody(t, others) + rest)
  {
    hide EncodeCb;
    assert ([cb] + others)[1..] == others;
    Assoc(EncodeCb(t, cb), EncodeBody(t, others), rest);
  }

  lemma FirstCb(m: Machine, t: Tables, cb: Cb, n: nat, tail: seq<Byte>)
    requires ValidCb(m, t, cb) && PeekSpecial(tail)
    ensures PeekSpecial(EncodeCb(t, cb) + tail)
    ensures DecodeBody(m, Reread(t), n + 1, EncodeCb(t, cb) + tail) ==
            if !NonZeroIds(cb.ops) then Fail else
            match DecodeBody(m, Reread(t), n, tail)
            case Fail => Fail
            case Got(cbs, rest) => Got([CbRecordOf(cb)] + cbs, rest)
  {
    hide EncodeCb, DecodeCb, PeekSpecial, ValidCb, DecodeBody, Reread, CbRecordOf;
    CbRoundTrip(m, t, cb, tail);
    DecodeBodyCons(m, Reread(t), n, EncodeCb(t, cb) + tail, DecodeCb(m, Reread(t), EncodeCb(t, cb) + tail));
  }

  lemma DecodeBodyCons(m: Machine, t: Tables, n: nat, bs: seq<Byte>, first: Read<CbRec>)
    requires DecodeCb(m, t, bs) == first
    ensures DecodeBody(m, t, n + 1, bs) ==
            if first.Fail? then Fail else
            match DecodeBody(m, t, n, first.rest)
            case Fail => Fail
            case Got(cbs, rest) => Got([first.value] + cbs, rest)
  {
    hide DecodeCb;
  }

  lemma NonZeroOperIdsCons(cb: Cb, others: seq<Cb>)
    ensures NonZeroOperIds([cb] + others) <==> NonZeroIds(cb.ops) && NonZeroOperIds(others)
  {
    var cbs := [cb] + others;
    assert cbs[0] == cb;
    assert forall i :: 0 <= i < |others| ==> others[i] == cbs[i + 1];
  }
}
