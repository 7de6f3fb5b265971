/** Operation records of the binary format.

    An operation is written as  id | opcode | #src src | #dest dest | flags | #pred pred | #attr attr
    and every empty trailing part is left out.  Operands and strings are written as positions in
    tables that precede the function body.  Nothing marks the end of a record: the reader stops
    when the next byte carries the special bit.
 */
module BinaryOper {
  import opened Collections
  import opened BinaryCodec
  import opened BinaryOperand
  import opened Flags

  /** Attributes, operations and records are the same for slots that hold operands by value and for
      slots that hold operand objects. */
  datatype Attribute<S> = Attr(name: Text, fields: seq<S>)

  datatype Operation<S> = Oper(id: int, opcode: Text, com: seq<int>, src: seq<S>, dest: seq<S>, flags: set<Byte>,
                               pred: seq<S>, attrs: seq<Attribute<S>>)

  /** What one record says of an operation: slot lists as long as they were written, and flags only
      if a flag string was named. */
  datatype OperRecord<S> = Record(id: int, opcode: Text, com: seq<int>, src: seq<S>, dest: seq<S>,
                                  flags: Option<set<Byte>>, pred: seq<S>, attrs: seq<Attribute<S>>)

  type Slot = Option<Operand>
  type Slots = seq<Slot>
  type Attr = Attribute<Slot>
  type Oper = Operation<Slot>
  type Record = OperRecord<Slot>

  /** The opcodes with a meaning to the reader (those that carry two completer codes, prologue,
      epilogue, define and the subroutine calls), the macros that name a frame size, the sizes of
      the operand arrays, and the names operands may use. */
  datatype Machine = Machine(compares: set<Text>, prologue: Text, epilogue: Text, define: Text, calls: set<Text>,
                             sizeMacros: set<Text>, maxSrc: nat, maxDest: nat, maxPred: nat, names: Names)

  /** The emitted string and operand tables; the id of an entry is its position, from 1. */
  datatype Tables = Tables(strings: seq<Text>, operands: seq<Operand>)

  function Find<T(==)>(table: seq<T>, x: T): (n: nat)
    ensures n <= |table|
    ensures n == 0 <==> x !in table
    ensures n > 0 ==> table[n - 1] == x
  {
    if table == [] then 0
    else
      var n := Find(table[..|table| - 1], x);
      if n > 0 then n else if table[|table| - 1] == x then |table| else 0
  }

  function Blank(n: nat): (s: Slots)
    ensures |s| == n && forall i :: 0 <= i < n ==> s[i] == None
  {
    seq(n, i => None)
  }

  /** Drops trailing empty slots; interior ones stay. */
  function Trim(s: Slots): (t: Slots)
    ensures |t| <= |s| && s == t + Blank(|s| - |t|)
  {
    if s == [] || s[|s| - 1].Some? then s else Trim(s[..|s| - 1])
  }

  function SlotId(t: Tables, s: Option<Operand>): nat {
    match s
    case None => 0
    case Some(o) => Find(t.operands, o)
  }

  /** The id written for a flag string: 0 when no flag is set. */
  function FlagId(t: Tables, flags: Text): nat {
    if flags == [] then 0 else Find(t.strings, flags)
  }

  // ----- specification of the writer -----

  function EncodeIds(t: Tables, s: Slots): seq<Byte> {
    if s == [] then [] else EncodeInt(SlotId(t, s[0])) + EncodeIds(t, s[1..])
  }

  function EncodeSlots(t: Tables, s: Slots): seq<Byte> {
    EncodeInt(|s|) + EncodeIds(t, s)
  }

  function EncodeAttr(t: Tables, a: Attr): seq<Byte> {
    EncodeInt(Find(t.strings, a.name)) + EncodeSlots(t, a.fields)
  }

  function EncodeAttrs(t: Tables, attrs: seq<Attr>): seq<Byte> {
    if attrs == [] then [] else EncodeAttr(t, attrs[0]) + EncodeAttrs(t, attrs[1..])
  }

  predicate EmptyFromPred(o: Oper) {
    Trim(o.pred) == [] && o.attrs == []
  }

  function FlagText(o: Oper): Text {
    FlagString(OPER_FLAGS, o.flags)
  }

  predicate EmptyFromFlags(o: Oper) {
    FlagText(o) == [] && EmptyFromPred(o)
  }

  predicate EmptyFromDest(o: Oper) {
    Trim(o.dest) == [] && EmptyFromFlags(o)
  }

  predicate EmptyFromSrc(o: Oper) {
    Trim(o.src) == [] && EmptyFromDest(o)
  }

  function AttrPart(t: Tables, o: Oper): seq<Byte> {
    if o.attrs == [] then [] else EncodeInt(|o.attrs|) + EncodeAttrs(t, o.attrs)
  }

  function PredPart(t: Tables, o: Oper): seq<Byte> {
    if EmptyFromPred(o) then [] else EncodeSlots(t, Trim(o.pred)) + AttrPart(t, o)
  }

  function FlagPart(t: Tables, o: Oper): seq<Byte> {
    if EmptyFromFlags(o) then []
    else EncodeInt(FlagId(t, FlagText(o))) + PredPart(t, o)
  }

  function DestPart(t: Tables, o: Oper): seq<Byte> {
    if EmptyFromDest(o) then [] else EncodeSlots(t, Trim(o.dest)) + FlagPart(t, o)
  }

  function SrcPart(t: Tables, o: Oper): seq<Byte> {
    if EmptyFromSrc(o) then [] else EncodeSlots(t, Trim(o.src)) + DestPart(t, o)
  }

  function EncodeCom(com: seq<int>): seq<Byte> {
    if com == [] then [] else EncodeInt(com[0]) + EncodeCom(com[1..])
  }

  function EncodeOper(t: Tables, o: Oper): seq<Byte> {
    EncodeSpecial(o.id) + (EncodeInt(Find(t.strings, o.opcode)) + (EncodeCom(o.com) + SrcPart(t, o)))
  }

  function EncodeOpers(t: Tables, ops: seq<Oper>): seq<Byte> {
    if ops == [] then [] else EncodeOper(t, ops[0]) + EncodeOpers(t, ops[1..])
  }

  // ----- specification of the reader -----

  /** A string position, which must be in the table. */
  function DecodeName(t: Tables, bs: seq<Byte>): (r: Read<Text>)
    ensures r.Got? ==> |r.rest| < |bs|
  {
    var r := DecodeInt(bs);
    if r.Got? && 1 <= r.value <= |t.strings| then Got(t.strings[r.value - 1], r.rest) else Fail
  }

  function DecodeIds(t: Tables, n: int, bs: seq<Byte>): (r: Read<Slots>)
    ensures r.Got? ==> |r.rest| <= |bs|
    ensures r.Got? ==> |r.value| == if n < 0 then 0 else n
    decreases n
  {
    if n <= 0 then Got([], bs)
    else
      var first := DecodeInt(bs);
      if first.Fail? || !(0 <= first.value <= |t.operands|) then Fail
      else
        match DecodeIds(t, n - 1, first.rest)
        case Fail => Fail
        case Got(s, rest) =>
          Got([if first.value == 0 then None else Some(t.operands[first.value - 1])] + s, rest)
  }

  /** A counted operand list, at most max long. */
  function DecodeSlots(t: Tables, max: nat, bs: seq<Byte>): (r: Read<Slots>)
    ensures r.Got? ==> |r.rest| < |bs| && |r.value| <= max
  {
    var n := DecodeInt(bs);
    if n.Fail? || n.value > max then Fail else DecodeIds(t, n.value, n.rest)
  }

  function DecodeAttr(t: Tables, bs: seq<Byte>): (r: Read<Attr>)
    ensures r.Got? ==> |r.rest| < |bs|
  {
    var name := DecodeName(t, bs);
    if name.Fail? then Fail else
    match DecodeSlots(t, MAX_INT, name.rest)
    case Fail => Fail
    case Got(fields, rest) => Got(Attr(name.value, fields), rest)
  }

  function DecodeAttrs(t: Tables, n: int, bs: seq<Byte>): (r: Read<seq<Attr>>)
    ensures r.Got? ==> |r.rest| <= |bs|
    decreases n
  {
    if n <= 0 then Got([], bs)
    else
      var first := DecodeAttr(t, bs);
      if first.Fail? then Fail else
      match DecodeAttrs(t, n - 1, first.rest)
      case Fail => Fail
      case Got(attrs, rest) => Got([first.value] + attrs, rest)
  }

  /** The rest of a record from the attributes on.  What follows the attributes can only be the
      synchronisation arcs, which are not modelled. */
  function ReadAttrPart(t: Tables, r: Record, bs: seq<Byte>): (x: Read<Record>)
    ensures x.Got? ==> |x.rest| <= |bs|
  {
    if PeekSpecial(bs) then Got(r, bs)
    else
      var n := DecodeInt(bs);
      if n.Fail? then Fail else
      match DecodeAttrs(t, n.value, n.rest)
      case Fail => Fail
      case Got(attrs, rest) => if PeekSpecial(rest) then Got(r.(attrs := attrs), rest) else Fail
  }

  function ReadPredPart(m: Machine, t: Tables, r: Record, bs: seq<Byte>): (x: Read<Record>)
    ensures x.Got? ==> |x.rest| <= |bs|
  {
    if PeekSpecial(bs) then Got(r, bs)
    else
      match DecodeSlots(t, m.maxPred, bs)
      case Fail => Fail
      case Got(s, rest) => ReadAttrPart(t, r.(pred := s), rest)
  }

  /** The flags behind a flag string id; id 0 stands for none. */
  function DecodeFlags(order: seq<Byte>, t: Tables, bs: seq<Byte>): (r: Read<Option<set<Byte>>>)
    ensures r.Got? ==> |r.rest| < |bs|
  {
    var n := DecodeInt(bs);
    if n.Fail? || !(0 <= n.value <= |t.strings|) then Fail
    else if n.value == 0 then Got(None, n.rest)
    else
      var flags := FlagSet(order, t.strings[n.value - 1]);
      if flags.None? then Fail else Got(flags, n.rest)
  }

  function ReadFlagPart(m: Machine, t: Tables, r: Record, bs: seq<Byte>): (x: Read<Record>)
    ensures x.Got? ==> |x.rest| <= |bs|
  {
    if PeekSpecial(bs) then Got(r, bs)
    else
      match DecodeFlags(OPER_FLAGS, t, bs)
      case Fail => Fail
      case Got(flags, rest) => ReadPredPart(m, t, r.(flags := flags), rest)
  }

  function ReadDestPart(m: Machine, t: Tables, r: Record, bs: seq<Byte>): (x: Read<Record>)
    ensures x.Got? ==> |x.rest| <= |bs|
  {
    if PeekSpecial(bs) then Got(r, bs)
    else
      match DecodeSlots(t, m.maxDest, bs)
      case Fail => Fail
      case Got(s, rest) => ReadFlagPart(m, t, r.(dest := s), rest)
  }

  function ReadSrcPart(m: Machine, t: Tables, r: Record, bs: seq<Byte>): (x: Read<Record>)
    ensures x.Got? ==> |x.rest| <= |bs|
  {
    if PeekSpecial(bs) then Got(r, bs)
    else
      match DecodeSlots(t, m.maxSrc, bs)
      case Fail => Fail
      case Got(s, rest) => ReadDestPart(m, t, r.(src := s), rest)
  }

  /** A completer code is stored in eight bits. */
  function Narrow8(i: int): (n: int)
    ensures -128 <= n < 128 && (n - i) % 256 == 0
  {
    (i + 128) % 256 - 128
  }

  function DecodeCom(n: nat, bs: seq<Byte>): (r: Read<seq<int>>)
    ensures r.Got? ==> |r.rest| <= |bs|
  {
    if n == 0 then Got([], bs)
    else
      var first := DecodeInt(bs);
      if first.Fail? then Fail else
      match DecodeCom(n - 1, first.rest)
      case Fail => Fail
      case Got(com, rest) => Got([Narrow8(first.value)] + com, rest)
  }

  function NewRecord<S>(id: int, opcode: Text, com: seq<int>): OperRecord<S> {
    Record(id, opcode, com, [], [], None, [], [])
  }

  function ComCount(m: Machine, opcode: Text): nat {
    if opcode in m.compares then 2 else 0
  }

  function DecodeOper(m: Machine, t: Tables, bs: seq<Byte>): (r: Read<Record>)
    ensures r.Got? ==> |r.rest| < |bs|
  {
    if !PeekSpecial(bs) then Fail
    else
      var id := DecodeInt(bs);
      if id.Fail? then Fail else
      var opcode := DecodeName(t, id.rest);
      if opcode.Fail? then Fail else
      var com := DecodeCom(ComCount(m, opcode.value), opcode.rest);
      if com.Fail? then Fail else
      ReadSrcPart(m, t, NewRecord(id.value, opcode.value, com.value), com.rest)
  }

  const PARENT_MARK: Byte := 0xC0

  /** The operation loop of a block: a parent record is read and set aside. */
  function DecodeOpers(m: Machine, t: Tables, n: nat, bs: seq<Byte>): (r: Read<seq<Record>>)
    ensures r.Got? ==> |r.rest| <= |bs|
    decreases |bs|, n
  {
    if n == 0 then Got([], bs)
    else if bs != [] && bs[0] == PARENT_MARK then
      match DecodeOper(m, t, bs[1..])
      case Fail => Fail
      case Got(_, rest) => DecodeOpers(m, t, n, rest)
    else
      match DecodeOper(m, t, bs)
      case Fail => Fail
      case Got(o, rest) =>
        match DecodeOpers(m, t, n - 1, rest)
        case Fail => Fail
        case Got(ops, rest') => Got([o] + ops, rest')
  }

  // ----- what can be written -----

  /** Every operand in the slots is in the table. */
  predicate Known(t: Tables, s: Slots) {
    forall i :: 0 <= i < |s| && s[i].Some? ==> s[i].value in t.operands
  }

  predicate AttrsKnown(t: Tables, attrs: seq<Attr>) {
    forall i :: 0 <= i < |attrs| ==> Known(t, attrs[i].fields)
  }

  predicate OperKnown(t: Tables, o: Oper) {
    Known(t, o.src) && Known(t, o.dest) && Known(t, o.pred) && AttrsKnown(t, o.attrs)
  }

  predicate SizedAttrs(attrs: seq<Attr>) {
    |attrs| <= MAX_INT && forall i :: 0 <= i < |attrs| ==> |attrs[i].fields| <= MAX_INT
  }

  /** Everything in the operation fits the format, apart from the tables. */
  predicate SizedOper(m: Machine, o: Oper) {
    && 0 <= o.id <= MAX_INT
    && |o.com| == ComCount(m, o.opcode) && (forall i :: 0 <= i < |o.com| ==> -128 <= o.com[i] < 128)
    && |o.src| == m.maxSrc <= MAX_INT && |o.dest| == m.maxDest <= MAX_INT && |o.pred| == m.maxPred <= MAX_INT
    && SizedAttrs(o.attrs) && (forall c :: c in o.flags ==> c in OPER_FLAGS)
  }

  predicate Covered(t: Tables, s: Slots) {
    |s| <= MAX_INT && Known(t, s)
  }

  predicate ValidTables(t: Tables) {
    |t.strings| <= MAX_INT && |t.operands| <= MAX_INT
  }

  predicate ValidAttr(t: Tables, a: Attr) {
    a.name in t.strings && Covered(t, a.fields)
  }

  predicate ValidOper(m: Machine, t: Tables, o: Oper) {
    && ValidTables(t)
    && 0 <= o.id <= MAX_INT
    && o.opcode in t.strings
    && |o.com| == ComCount(m, o.opcode) && (forall i :: 0 <= i < |o.com| ==> -128 <= o.com[i] < 128)
    && |o.src| == m.maxSrc && Covered(t, o.src)
    && |o.dest| == m.maxDest && Covered(t, o.dest)
    && |o.pred| == m.maxPred && Covered(t, o.pred)
    && (FlagText(o) != [] ==> FlagText(o) in t.strings) && (forall c :: c in o.flags ==> c in OPER_FLAGS)
    && |o.attrs| <= MAX_INT && (forall i :: 0 <= i < |o.attrs| ==> ValidAttr(t, o.attrs[i]))
  }

  // ----- what comes back -----

  /** The tables as the reader has them. */
  function Reread(t: Tables): Tables {
    Tables(t.strings, AllReturned(t.operands))
  }

  function ReturnedSlot(s: Option<Operand>): Option<Operand> {
    if s.Some? then Some(Returned(s.value)) else None
  }

  function ReturnedSlots(s: Slots): (r: Slots)
    ensures |r| == |s|
    ensures forall i :: 0 <= i < |s| ==> r[i] == ReturnedSlot(s[i])
  {
    seq(|s|, i requires 0 <= i < |s| => ReturnedSlot(s[i]))
  }

  function ReturnedAttr(a: Attr): Attr {
    Attr(a.name, ReturnedSlots(a.fields))
  }

  function ReturnedAttrs(attrs: seq<Attr>): (r: seq<Attr>)
    ensures |r| == |attrs|
    ensures forall i :: 0 <= i < |attrs| ==> r[i] == ReturnedAttr(attrs[i])
  {
    seq(|attrs|, i requires 0 <= i < |attrs| => ReturnedAttr(attrs[i]))
  }

  function FlagsNamed(flags: Text, set': set<Byte>): Option<set<Byte>> {
    if flags == [] then None else Some(set')
  }

  /** The record that is read for an operation. */
  function RecordOf(o: Oper): Record {
    Record(o.id, o.opcode, o.com, ReturnedSlots(Trim(o.src)), ReturnedSlots(Trim(o.dest)),
           FlagsNamed(FlagText(o), o.flags), ReturnedSlots(Trim(o.pred)), ReturnedAttrs(o.attrs))
  }

  // ----- round trips -----

  lemma DecodeIdsCons(t: Tables, bs: seq<Byte>, first: Option<Operand>, tail: seq<Byte>, s: Slots, rest: seq<Byte>)
    requires first.Some? ==> first.value in t.operands
    requires DecodeInt(bs) == Got(SlotId(t, first), tail)
    requires DecodeIds(Reread(t), |s|, tail) == Got(s, rest)
    ensures DecodeIds(Reread(t), |s| + 1, bs) == Got([ReturnedSlot(first)] + s, rest)
  {
    hide EncodeInt, DecodeInt, Find, Returned;
  }

  lemma {:induction false} IdsRoundTrip(t: Tables, s: Slots, rest: seq<Byte>)
    requires ValidTables(t) && Covered(t, s)
    ensures DecodeIds(Reread(t), |s|, EncodeIds(t, s) + rest) == Got(ReturnedSlots(s), rest)
    decreases |s|
  {
    hide EncodeInt, DecodeInt, Find, Reread, Returned;
    if s == [] {
      assert [] + rest == rest;
    } else {
      var tail := EncodeIds(t, s[1..]) + rest;
      Assoc(EncodeInt(SlotId(t, s[0])), EncodeIds(t, s[1..]), rest);
      IntRoundTrip(SlotId(t, s[0]), tail);
      IdsRoundTrip(t, s[1..], rest);
      DecodeIdsCons(t, EncodeIds(t, s) + rest, s[0], tail, ReturnedSlots(s[1..]), rest);
      assert ReturnedSlots(s) == [ReturnedSlot(s[0])] + ReturnedSlots(s[1..]);
    }
  }

  lemma SlotsRoundTrip(t: Tables, max: nat, s: Slots, rest: seq<Byte>)
    requires ValidTables(t) && Covered(t, s) && |s| <= max
    ensures DecodeSlots(Reread(t), max, EncodeSlots(t, s) + rest) == Got(ReturnedSlots(s), rest)
    ensures !PeekSpecial(EncodeSlots(t, s) + rest)
  {
    hide EncodeInt, DecodeInt, Find, Reread, Returned;
    var tail := EncodeIds(t, s) + rest;
    assert EncodeSlots(t, s) + rest == EncodeInt(|s|) + tail;
    IntRoundTrip(|s|, tail);
    IdsRoundTrip(t, s, rest);
    SpecialBitSeparates(|s|, tail);
  }

  lemma NameRoundTrip(t: Tables, name: Text, rest: seq<Byte>)
    requires ValidTables(t) && name in t.strings
    ensures DecodeName(Reread(t), EncodeInt(Find(t.strings, name)) + rest) == Got(name, rest)
  {
    hide EncodeInt, DecodeInt;
    IntRoundTrip(Find(t.strings, name), rest);
  }

  lemma AttrRoundTrip(t: Tables, a: Attr, rest: seq<Byte>)
    requires ValidTables(t) && ValidAttr(t, a)
    ensures DecodeAttr(Reread(t), EncodeAttr(t, a) + rest) == Got(ReturnedAttr(a), rest)
  {
    hide EncodeInt, DecodeName, EncodeSlots, DecodeSlots, PeekSpecial, Reread;
    Assoc(EncodeInt(Find(t.strings, a.name)), EncodeSlots(t, a.fields), rest);
    NameRoundTrip(t, a.name, EncodeSlots(t, a.fields) + rest);
    SlotsRoundTrip(t, MAX_INT, a.fields, rest);
  }

  lemma {:induction false} AttrsRoundTrip(t: Tables, attrs: seq<Attr>, rest: seq<Byte>)
    requires ValidTables(t) && forall i :: 0 <= i < |attrs| ==> ValidAttr(t, attrs[i])
    ensures DecodeAttrs(Reread(t), |attrs|, EncodeAttrs(t, attrs) + rest) == Got(ReturnedAttrs(attrs), rest)
    decreases |attrs|
  {
    hide EncodeAttr, DecodeAttr, ValidAttr, Reread, ReturnedAttr;
    if attrs == [] {
      assert [] + rest == rest;
    } else {
      Assoc(EncodeAttr(t, attrs[0]), EncodeAttrs(t, attrs[1..]), rest);
      AttrRoundTrip(t, attrs[0], EncodeAttrs(t, attrs[1..]) + rest);
      AttrsRoundTrip(t, attrs[1..], rest);
      assert ReturnedAttrs(attrs) == [ReturnedAttr(attrs[0])] + ReturnedAttrs(attrs[1..]);
    }
  }

  lemma AttrPartRoundTrip(m: Machine, t: Tables, o: Oper, r: Record, rest: seq<Byte>)
    requires ValidOper(m, t, o) && PeekSpecial(rest) && r.attrs == []
    ensures ReadAttrPart(Reread(t), r, AttrPart(t, o) + rest) == Got(r.(attrs := ReturnedAttrs(o.attrs)), rest)
    ensures o.attrs != [] ==> !PeekSpecial(AttrPart(t, o) + rest)
  {
    hide EncodeInt, DecodeInt, EncodeAttrs, DecodeAttrs, PeekSpecial, Reread, ReturnedAttr;
    if o.attrs == [] {
      assert AttrPart(t, o) + rest == rest;
    } else {
      var tail := EncodeAttrs(t, o.attrs) + rest;
      assert AttrPart(t, o) + rest == EncodeInt(|o.attrs|) + tail;
      IntRoundTrip(|o.attrs|, tail);
      SpecialBitSeparates(|o.attrs|, tail);
      AttrsRoundTrip(t, o.attrs, rest);
    }
  }

  lemma TrimCovered(t: Tables, s: Slots)
    requires Covered(t, s)
    ensures Covered(t, Trim(s))
  {
    assert forall i :: 0 <= i < |Trim(s)| ==> Trim(s)[i] == s[i];
  }

  lemma PredPartRoundTrip(m: Machine, t: Tables, o: Oper, r: Record, rest: seq<Byte>)
    requires ValidOper(m, t, o) && PeekSpecial(rest) && r.pred == [] && r.attrs == []
    ensures ReadPredPart(m, Reread(t), r, PredPart(t, o) + rest) ==
            Got(r.(pred := ReturnedSlots(Trim(o.pred)), attrs := ReturnedAttrs(o.attrs)), rest)
  {
    hide EncodeSlots, DecodeSlots, AttrPart, ReadAttrPart, PeekSpecial, Trim, Reread, ReturnedAttr, ReturnedSlot;
    TrimCovered(t, o.pred);
    if EmptyFromPred(o) {
      assert PredPart(t, o) + rest == rest;
    } else {
      var tail := AttrPart(t, o) + rest;
      Assoc(EncodeSlots(t, Trim(o.pred)), AttrPart(t, o), rest);
      SlotsRoundTrip(t, m.maxPred, Trim(o.pred), tail);
      AttrPartRoundTrip(m, t, o, r.(pred := ReturnedSlots(Trim(o.pred))), rest);
    }
  }

  /** The flags of a printed flag word come back; none are named when none are set. */
  lemma FlagIdRoundTrip(order: seq<Byte>, t: Tables, flags: set<Byte>, rest: seq<Byte>)
    requires ValidTables(t) && AllUpper(order) && forall c :: c in flags ==> c in order
    requires FlagString(order, flags) != [] ==> FlagString(order, flags) in t.strings
    ensures var s := FlagString(order, flags);
      DecodeFlags(order, Reread(t), EncodeInt(FlagId(t, s)) + rest) == Got(FlagsNamed(s, flags), rest)
  {
    hide EncodeInt, DecodeInt, FlagSet, FlagString;
    IntRoundTrip(FlagId(t, FlagString(order, flags)), rest);
    FlagsRoundTrip(order, flags);
  }

  lemma FlagPartRoundTrip(m: Machine, t: Tables, o: Oper, r: Record, rest: seq<Byte>)
    requires ValidOper(m, t, o) && PeekSpecial(rest) && r.flags == None && r.pred == [] && r.attrs == []
    ensures ReadFlagPart(m, Reread(t), r, FlagPart(t, o) + rest) ==
            Got(r.(flags := FlagsNamed(FlagText(o), o.flags), pred := ReturnedSlots(Trim(o.pred)),
                   attrs := ReturnedAttrs(o.attrs)), rest)
  {
    hide EncodeInt, DecodeFlags, PredPart, ReadPredPart, PeekSpecial, Trim, Reread, ReturnedAttr, ReturnedSlot;
    hide FlagString, AllUpper;
    if EmptyFromFlags(o) {
      assert FlagPart(t, o) + rest == rest;
    } else {
      var id := FlagId(t, FlagText(o));
      var tail := PredPart(t, o) + rest;
      Assoc(EncodeInt(id), PredPart(t, o), rest);
      OrdersAreUpper();
      FlagIdRoundTrip(OPER_FLAGS, t, o.flags, tail);
      SpecialBitSeparates(id, tail);
      PredPartRoundTrip(m, t, o, r.(flags := FlagsNamed(FlagText(o), o.flags)), rest);
    }
  }

  lemma DestPartRoundTrip(m: Machine, t: Tables, o: Oper, r: Record, rest: seq<Byte>)
    requires ValidOper(m, t, o) && PeekSpecial(rest)
    requires r.dest == [] && r.flags == None && r.pred == [] && r.attrs == []
    ensures ReadDestPart(m, Reread(t), r, DestPart(t, o) + rest) ==
            Got(r.(dest := ReturnedSlots(Trim(o.dest)), flags := FlagsNamed(FlagText(o), o.flags),
                   pred := ReturnedSlots(Trim(o.pred)), attrs := ReturnedAttrs(o.attrs)), rest)
  {
    hide EncodeSlots, DecodeSlots, FlagPart, ReadFlagPart, PeekSpecial, Trim, Reread, ReturnedAttr, ReturnedSlot;
    hide FlagString, FlagText;
    TrimCovered(t, o.dest);
    if EmptyFromDest(o) {
      assert DestPart(t, o) + rest == rest;
    } else {
      var tail := FlagPart(t, o) + rest;
      Assoc(EncodeSlots(t, Trim(o.dest)), FlagPart(t, o), rest);
      SlotsRoundTrip(t, m.maxDest, Trim(o.dest), tail);
      FlagPartRoundTrip(m, t, o, r.(dest := ReturnedSlots(Trim(o.dest))), rest);
    }
  }

  lemma SrcPartRoundTrip(m: Machine, t: Tables, o: Oper, rest: seq<Byte>)
    requires ValidOper(m, t, o) && PeekSpecial(rest)
    ensures ReadSrcPart(m, Reread(t), NewRecord(o.id, o.opcode, o.com), SrcPart(t, o) + rest) == Got(RecordOf(o), rest)
  {
    hide EncodeSlots, DecodeSlots, DestPart, ReadDestPart, PeekSpecial, Trim, Reread, ReturnedAttr, ReturnedSlot;
    hide FlagString, FlagText;
    TrimCovered(t, o.src);
    var r := NewRecord(o.id, o.opcode, o.com);
    if EmptyFromSrc(o) {
      assert SrcPart(t, o) + rest == rest;
    } else {
      var tail := DestPart(t, o) + rest;
      Assoc(EncodeSlots(t, Trim(o.src)), DestPart(t, o), rest);
      SlotsRoundTrip(t, m.maxSrc, Trim(o.src), tail);
      DestPartRoundTrip(m, t, o, r.(src := ReturnedSlots(Trim(o.src))), rest);
    }
  }

  lemma DecodeComCons(bs: seq<Byte>, first: int, tail: seq<Byte>, com: seq<int>, rest: seq<Byte>)
    requires DecodeInt(bs) == Got(first, tail) && -128 <= first < 128
    requires DecodeCom(|com|, tail) == Got(com, rest)
    ensures DecodeCom(|com| + 1, bs) == Got([first] + com, rest)
  {
    hide EncodeInt, DecodeInt, Find;
    assert Narrow8(first) == first;
    var n := |com|;
    assert DecodeCom(n + 1, bs) == Got([Narrow8(first)] + com, rest);
  }

  lemma {:induction false} ComRoundTrip(com: seq<int>, rest: seq<Byte>)
    requires forall i :: 0 <= i < |com| ==> -128 <= com[i] < 128
    ensures DecodeCom(|com|, EncodeCom(com) + rest) == Got(com, rest)
    decreases |com|
  {
    hide EncodeInt, DecodeInt, Find;
    if com == [] {
      assert [] + rest == rest;
    } else {
      var tail := EncodeCom(com[1..]) + rest;
      Assoc(EncodeInt(com[0]), EncodeCom(com[1..]), rest);
      IntRoundTrip(com[0], tail);
      ComRoundTrip(com[1..], rest);
      DecodeComCons(EncodeCom(com) + rest, com[0], tail, com[1..], rest);
      assert com == [com[0]] + com[1..];
    }
  }

  /** The record of an operation is read whenever something with the special bit, or nothing,
      follows it. */
  lemma OperRoundTrip(m: Machine, t: Tables, o: Oper, rest: seq<Byte>)
    requires ValidOper(m, t, o) && PeekSpecial(rest)
    ensures DecodeOper(m, Reread(t), EncodeOper(t, o) + rest) == Got(RecordOf(o), rest)
    ensures PeekSpecial(EncodeOper(t, o) + rest)
  {
    hide EncodeInt, DecodeInt, EncodeSpecial, DecodeName, DecodeCom, EncodeCom, SrcPart, ReadSrcPart, PeekSpecial;
    hide Reread, RecordOf, FlagText;
    var tail := SrcPart(t, o) + rest;
    var com := EncodeCom(o.com) + tail;
    var opcode := EncodeInt(Find(t.strings, o.opcode)) + com;
    assert EncodeOper(t, o) + rest == EncodeSpecial(o.id) + opcode;
    SpecialRoundTrip(o.id, opcode);
    SpecialBitSeparates(o.id, opcode);
    NameRoundTrip(t, o.opcode, com);
    ComRoundTrip(o.com, tail);
    SrcPartRoundTrip(m, t, o, rest);
  }
}
