/** The format on samples, byte by byte.  Round trips hold for any pair of a writer and a reader that
    agree; these bytes fix the one pair that other programs read and write. */
module BinarySamples {
  import opened Collections
  import opened BinaryCodec
  import opened Flags
  import opened BinaryOperand
  import opened BinaryOper
  import opened BinaryBody
  import opened BinaryInterning
  import opened BinaryFunction
  import BinaryExpr

  /** Integers, flagged integers and strings. */
  lemma SampleNumbers()
    ensures EncodeInt(0) == [0x80] && EncodeInt(65) == [0x01, 0x81] && EncodeInt(-1) == [0x40, 0x81]
    ensures EncodeSpecial(3) == [0xC3] && EncodeSpecial(64) == [0x41, 0x80]
    ensures EncodeString(END) == [0x65, 0x6E, 0xE4]
  {
    assert Digits(65) == Digits(1) + [1] && Digits(64) == Digits(1) + [0];
    assert [1, 1][1..] == [1] && [1, 0][1..] == [0];
    assert END[1..] == ['n' as int, 'd' as int] && END[1..][1..] == ['d' as int];
  }

  /** The letter behind the first byte of every kind of operand. */
  lemma SampleTags(n: int, s: Text, ty: Text)
    ensures OperandTag(CbRef(n)) == 'c' as int && OperandTag(Evr(n, n, ty)) == 'e' as int
    ensures OperandTag(Register(n, ty)) == 'r' as int && OperandTag(RRegister(n, ty)) == 'R' as int
    ensures OperandTag(Macro(s, ty)) == 'm' as int
    ensures OperandTag(Operand.Float(s)) == 'f' as int && OperandTag(Operand.Double(s)) == 'd' as int
    ensures OperandTag(Label(s, LocalAbs)) == '1' as int && OperandTag(Label(s, LocalGp)) == '2' as int
    ensures OperandTag(Label(s, GlobalAbs)) == '3' as int && OperandTag(Label(s, GlobalGp)) == '4' as int
    ensures OperandTag(Str(s, LocalAbs)) == '5' as int && OperandTag(Str(s, LocalGp)) == '6' as int
    ensures OperandTag(Str(s, GlobalAbs)) == '7' as int && OperandTag(Str(s, GlobalGp)) == '8' as int
    ensures OperandTag(Immed(n, Char)) == 'C' as int && OperandTag(Immed(n, UChar)) == 'D' as int
    ensures OperandTag(Immed(n, Short)) == 'S' as int && OperandTag(Immed(n, UShort)) == 'T' as int
    ensures OperandTag(Immed(n, SInt)) == 'i' as int && OperandTag(Immed(n, UInt)) == 'J' as int
    ensures OperandTag(Immed(n, Long)) == 'L' as int && OperandTag(Immed(n, ULong)) == 'M' as int
    ensures OperandTag(Immed(n, LLong)) == 'W' as int && OperandTag(Immed(n, ULLong)) == 'X' as int
    ensures OperandTag(Immed(n, LLLong)) == 'Y' as int && OperandTag(Immed(n, ULLLong)) == 'Z' as int
    ensures OperandTag(Immed(n, Pointer)) == 'P' as int
  {
  }

  /** The letters of expression nodes. */
  lemma SampleExprTags(n: int, s: seq<Byte>)
    ensures BinaryExpr.Tag(BinaryExpr.Int(n)) == 'i' as int && BinaryExpr.Tag(BinaryExpr.Float(s)) == 'f' as int
    ensures BinaryExpr.Tag(BinaryExpr.Double(s)) == 'd' as int && BinaryExpr.Tag(BinaryExpr.Label(s)) == 'l' as int
    ensures BinaryExpr.Tag(BinaryExpr.Str(s)) == 's' as int
    ensures BinaryExpr.Tag(BinaryExpr.Add) == 'A' as int && BinaryExpr.Tag(BinaryExpr.Sub) == 'S' as int
    ensures BinaryExpr.Tag(BinaryExpr.Mul) == 'M' as int && BinaryExpr.Tag(BinaryExpr.Div) == 'D' as int
    ensures BinaryExpr.Tag(BinaryExpr.Neg) == 'N' as int && BinaryExpr.Tag(BinaryExpr.Com) == 'C' as int
  {
  }

  const LEAF_A: BinaryExpr.Expr :=
    BinaryExpr.Node(BinaryExpr.Label(['a' as int]), BinaryExpr.Nil, BinaryExpr.Nil, BinaryExpr.Nil)
  const SUM: BinaryExpr.Expr := BinaryExpr.Node(BinaryExpr.Add, LEAF_A, LEAF_A, BinaryExpr.Nil)

  /** a + a: the second label is not written. */
  lemma SampleExpr()
    ensures BinaryExpr.EncodeExpr(SUM, []) == ([0xC1, 0xEC, 0xE1, 0x80, 0xEC, 0x80, 0x80], ['a' as int])
  {
    SampleLeaf();
    assert BinaryExpr.Payload(BinaryExpr.Add, []) == [] && BinaryExpr.Arity(BinaryExpr.Add) == 2;
    assert [0xC1] + ([] + ([0xEC, 0xE1, 0x80] + ([0xEC, 0x80] + [0x80]))) == [0xC1, 0xEC, 0xE1, 0x80, 0xEC, 0x80, 0x80];
  }

  lemma SampleLeaf()
    ensures BinaryExpr.EncodeExpr(LEAF_A, []) == ([0xEC, 0xE1, 0x80], ['a' as int])
    ensures BinaryExpr.EncodeExpr(LEAF_A, ['a' as int]) == ([0xEC, 0x80], ['a' as int])
  {
    hide EncodeString;
    OneString('a' as int);
    var a: Text := ['a' as int];
    assert BinaryExpr.Payload(LEAF_A.kind, []) == [0xE1] && BinaryExpr.Payload(LEAF_A.kind, a) == [];
    assert BinaryExpr.Arity(LEAF_A.kind) == 0 && BinaryExpr.Remember(LEAF_A.kind, []) == a;
    assert [0xEC] + ([0xE1] + ([] + ([] + [0x80]))) == [0xEC, 0xE1, 0x80];
    assert [0xEC] + ([] + ([] + ([] + [0x80]))) == [0xEC, 0x80];
  }

  // ----- a function with one block and one operation -----

  const REG: Operand := Register(2, ['i' as int])
  const NUM: Operand := Immed(65, SInt)
  const OP: Oper := Oper(3, ['a' as int], [], [None, Some(NUM), None], [Some(REG), None], {}, [None],
                         [Attr(['x' as int], [Some(REG)])])
  const CB: Cb := Cb(1, {}, ['2' as int], [Flow(0, 1, ['3' as int])], [], [OP])
  const FN: Function := Function(['f' as int], {}, ['1' as int], [], [CB])
  const TABLES: Tables := Tables([['a' as int], ['x' as int]], [REG, NUM])

  lemma NoFlags(order: seq<Byte>)
    ensures FlagString(order, {}) == []
  {
    assert forall c :: c !in FlagString(order, {});
  }

  lemma SampleFlags()
    ensures FnText(FN) == [] && CbText(CB) == [] && FlagText(OP) == []
  {
    hide FlagString;
    NoFlags(FUNC_FLAGS);
    NoFlags(CB_FLAGS);
    NoFlags(OPER_FLAGS);
  }

  /** The tables: strings and operands in the order the scan meets them, destinations first. */
  lemma SampleTables()
    ensures AllNames(FN) == [['a' as int], ['x' as int]] && AllOperands(FN) == [REG, NUM, REG]
    ensures TablesOf(FN) == TABLES
  {
    hide FnText, CbText, FlagText;
    SampleFlags();
    SampleNames();
    SampleOperands();
    SampleIntern();
  }

  lemma SampleNames()
    requires FnText(FN) == [] && CbText(CB) == [] && FlagText(OP) == []
    ensures AllNames(FN) == [['a' as int], ['x' as int]]
  {
    hide FnText, CbText, FlagText;
    assert AttrNames(OP.attrs) == [['x' as int]];
    assert OperNames(OP) == [['a' as int], ['x' as int]];
    assert OpersNames([OP]) == OperNames(OP);
    assert CbsNames([CB]) == OpersNames([OP]);
  }

  lemma SampleOperands()
    ensures AllOperands(FN) == [REG, NUM, REG]
  {
    assert Operands([Some(REG), None]) == [REG] + Operands([None]);
    assert Operands([Some(REG)]) == [REG];
    assert [None, Some(NUM), None][1..] == [Some(NUM), None];
    assert Operands([Some(NUM), None]) == [NUM] + Operands([None]);
    assert Operands([None, Some(NUM), None]) == [NUM] && Operands([None]) == [];
    assert AttrOperands(OP.attrs) == [REG];
    assert OperOperands(OP) == [REG, NUM, REG];
    assert OpersOperands([OP]) == OperOperands(OP);
    assert CbsOperands([CB]) == OpersOperands([OP]);
  }

  lemma SampleIntern()
    requires AllNames(FN) == [['a' as int], ['x' as int]] && AllOperands(FN) == [REG, NUM, REG]
    ensures TablesOf(FN) == TABLES
  {
    hide AllNames, AllOperands;
    var a: Text, x: Text := ['a' as int], ['x' as int];
    assert a[0] != x[0];
    InternStep([], a, [x]);
    InternStep([a], x, []);
    InternStep([], REG, [NUM, REG]);
    InternStep([REG], NUM, [REG]);
    InternStep([REG, NUM], REG, []);
    assert [a] + [x] == AllNames(FN) && [a] + [] == [a] && [x] + [] == [x] && [REG] + [] == [REG];
    assert [REG] + [NUM, REG] == AllOperands(FN) && [NUM] + [REG] == [NUM, REG];
    assert [REG] + [NUM] == [REG, NUM] && [a] + [x] == TABLES.strings && [] + [a] == [a] && [] + [REG] == [REG];
    assert x !in [a];
    assert Intern([a], [x] + []) == Intern([a] + [x], []) == [a] + [x];
    assert Intern([], AllNames(FN)) == [a] + [x];
    assert Intern([], AllOperands(FN)) == [REG, NUM];
  }

  lemma InternStep<T>(table: seq<T>, x: T, xs: seq<T>)
    ensures Intern(table, [x] + xs) == Intern(if x in table then table else table + [x], xs)
  {
    assert ([x] + xs)[1..] == xs;
  }

  /** The sample function is written as these bytes. */
  lemma SampleFunction()
    ensures EncodeFunction(FN) ==
            // name, flags, weight, strings, operands, attributes, blocks
            [0xE6, 0x80, 0xB1, 0x82, 0x82, 0x80, 0x81] +
            // the tables: "a", "x"; register 2 of type "i", integer 65
            [0xE1, 0xF8, 0xF2, 0x82, 0xE9, 0xE9, 0x01, 0x81] +
            // block: id, flags, weight, flows, attributes, operations; its flow
            [0xC1, 0x80, 0xB2, 0x81, 0x80, 0x81, 0x80, 0x81, 0xB3] +
            // operation: id, opcode, sources, destinations, flags, predicates, attributes
            [0xC3, 0x81, 0x82, 0x80, 0x82, 0x81, 0x81, 0x80, 0x80, 0x81, 0x82, 0x81, 0x81] +
            [0x65, 0x6E, 0xE4]
  {
    hide EncodeString, EncodeInt, EncodeSpecial, TablesOf, FnText, CbText, FlagText, HeaderOf;
    hide EncodeOper, EncodeFnHeader, EncodeHeader, EncodeFlows, EncodeStrings, EncodeOperands, EncodeBody, EncodeAttrs;
    SampleFlags();
    SampleTables();
    SampleNumbers();
    SampleHeader();
    SampleOper();
    SampleEntries();
    SampleBody();
    NoAttrBytes();
    Joined(EncodeFnHeader(HeaderOf(FN)), EncodeStrings(TABLES.strings), EncodeOperands(TABLES.operands),
           EncodeHeader(TABLES, CB), EncodeFlows(CB.flows), EncodeOper(TABLES, OP), EncodeString(END));
  }

  lemma Joined(fh: seq<Byte>, s: seq<Byte>, o: seq<Byte>, h: seq<Byte>, f: seq<Byte>, op: seq<Byte>, end: seq<Byte>)
    ensures fh + (s + (o + ([] + (h + f + op + end)))) == fh + (s + o) + (h + f) + op + end
  {
  }

  lemma NoAttrBytes()
    ensures EncodeAttrs(TABLES, []) == []
  {
  }

  lemma SampleBody()
    requires CbText(CB) == []
    ensures EncodeBody(TABLES, [CB]) ==
            EncodeHeader(TABLES, CB) + EncodeFlows(CB.flows) + EncodeOper(TABLES, OP) + EncodeString(END)
  {
    hide EncodeString, EncodeOper, EncodeHeader, EncodeFlows, EncodeCb;
    var h, f, o: seq<Byte> := EncodeHeader(TABLES, CB), EncodeFlows(CB.flows), EncodeOper(TABLES, OP);
    assert EncodeCb(TABLES, CB) == h + f + o by {
      SampleBlock();
    }
    assert [CB][1..] == [];
    assert EncodeBody(TABLES, [CB]) == EncodeCb(TABLES, CB) + EncodeBody(TABLES, []);
  }

  lemma SampleBlock()
    ensures EncodeCb(TABLES, CB) == EncodeHeader(TABLES, CB) + EncodeFlows(CB.flows) + EncodeOper(TABLES, OP)
  {
    hide EncodeOper, EncodeHeader, EncodeFlows;
    assert [OP][1..] == [];
    assert EncodeOpers(TABLES, [OP]) == EncodeOper(TABLES, OP) + EncodeOpers(TABLES, []);
  }

  lemma SampleHeader()
    requires TablesOf(FN) == TABLES && FnText(FN) == [] && CbText(CB) == []
    ensures EncodeFnHeader(HeaderOf(FN)) == [0xE6, 0x80, 0xB1, 0x82, 0x82, 0x80, 0x81]
    ensures EncodeHeader(TABLES, CB) == [0xC1, 0x80, 0xB2, 0x81, 0x80, 0x81]
    ensures EncodeFlows(CB.flows) == [0x80, 0x81, 0xB3]
  {
    hide EncodeString, TablesOf, FnText, CbText;
    OneString('f' as int);
    OneString('1' as int);
    OneString('2' as int);
    OneString('3' as int);
    Small();
  }

  lemma Small()
    ensures EncodeInt(0) == [0x80] && EncodeInt(1) == [0x81] && EncodeInt(2) == [0x82]
    ensures EncodeSpecial(1) == [0xC1] && EncodeSpecial(3) == [0xC3]
  {
  }

  lemma OneString(c: Byte)
    requires c < 128
    ensures EncodeString([c]) == [c + 128]
  {
  }

  lemma SampleEntries()
    ensures EncodeStrings(TABLES.strings) == [0xE1, 0xF8]
    ensures EncodeOperands(TABLES.operands) == [0xF2, 0x82, 0xE9, 0xE9, 0x01, 0x81]
  {
    hide EncodeString, EncodeInt;
    OneString('a' as int);
    OneString('x' as int);
    OneString('i' as int);
    Small();
    SampleNumbers();
    assert TABLES.strings[1..] == [['x' as int]] && TABLES.strings[1..][1..] == [];
    assert TABLES.operands[1..] == [NUM] && TABLES.operands[1..][1..] == [];
    assert EncodeOperand(REG) == [0xF2, 0x82, 0xE9];
    assert EncodeOperand(NUM) == [0xE9, 0x01, 0x81];
    assert EncodeStrings([['x' as int]]) == [0xF8] + EncodeStrings([]);
    assert EncodeOperands([NUM]) == EncodeOperand(NUM) + EncodeOperands([]);
  }

  lemma SampleOper()
    requires FlagText(OP) == []
    ensures EncodeOper(TABLES, OP) ==
            [0xC3, 0x81, 0x82, 0x80, 0x82, 0x81, 0x81, 0x80, 0x80, 0x81, 0x82, 0x81, 0x81]
  {
    hide EncodeInt, EncodeSpecial, FlagText;
    Small();
    SampleTrims();
    SampleSlots();
    assert Find(TABLES.strings, ['a' as int]) == 1 && Find(TABLES.strings, ['x' as int]) == 2;
    assert AttrPart(TABLES, OP) == [0x81, 0x82, 0x81, 0x81];
    assert PredPart(TABLES, OP) == [0x80] + AttrPart(TABLES, OP);
    assert FlagPart(TABLES, OP) == [0x80] + PredPart(TABLES, OP);
    assert DestPart(TABLES, OP) == [0x81, 0x81] + FlagPart(TABLES, OP);
    assert SrcPart(TABLES, OP) == [0x82, 0x80, 0x82] + DestPart(TABLES, OP);
  }

  lemma SampleTrims()
    ensures Trim(OP.src) == [None, Some(NUM)] && Trim(OP.dest) == [Some(REG)] && Trim(OP.pred) == []
  {
    assert OP.src[..2] == [None, Some(NUM)] && OP.dest[..1] == [Some(REG)] && OP.pred[..0] == [];
  }

  lemma SampleSlots()
    ensures EncodeSlots(TABLES, [None, Some(NUM)]) == [0x82, 0x80, 0x82]
    ensures EncodeSlots(TABLES, [Some(REG)]) == [0x81, 0x81] && EncodeSlots(TABLES, []) == [0x80]
    ensures EncodeAttrs(TABLES, OP.attrs) == EncodeInt(Find(TABLES.strings, ['x' as int])) + [0x81, 0x81]
  {
    hide EncodeInt;
    Small();
    assert Find(TABLES.operands, REG) == 1 && Find(TABLES.operands, NUM) == 2;
    var n, r: Slots := [Some(NUM)], [Some(REG)];
    assert ([None] + n)[1..] == n && [None] + n == [None, Some(NUM)] && n[1..] == [] && r[1..] == [];
    assert SlotId(TABLES, Some(NUM)) == 2 && SlotId(TABLES, Some(REG)) == 1;
    assert EncodeIds(TABLES, n) == EncodeInt(2) + EncodeIds(TABLES, []);
    assert EncodeIds(TABLES, [None] + n) == EncodeInt(0) + EncodeIds(TABLES, n);
    assert EncodeIds(TABLES, r) == EncodeInt(1) + EncodeIds(TABLES, []);
    assert OP.attrs[1..] == [];
  }
}
