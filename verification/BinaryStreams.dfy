/** The operation writer and reader as they work on streams: the writer counts slots from the
    end, the reader hands out operand objects from the table. */
module BinaryStreams {
  import opened Collections
  import opened BinaryCodec
  import opened BinaryOperand
  import opened BinaryOper
  import opened BinaryObjects
  import opened BinaryViews
  import opened Flags

  // ----- operand objects -----

  /** An operand object of the reader. */
  class OperandCell {
    const value: Operand

    constructor (value: Operand)
      ensures this.value == value
    {
      this.value := value;
    }
  }

  type CellSlots = seq<OperandCell?>
  type CellAttr = Attribute<OperandCell?>
  type CellRecord = OperRecord<OperandCell?>

  function CellValue(c: OperandCell?): Option<Operand> {
    if c == null then None else Some(c.value)
  }

  /** Slots that hold operand objects; a null object is an empty slot. */
  const CELLS: SlotKind<OperandCell?> := SlotKind(null, (c: OperandCell?) => CellValue(c))

  /** The objects behind cells, in order. */
  ghost function Objects(cells: CellSlots): seq<OperandCell> {
    if cells == [] then []
    else Objects(cells[..|cells| - 1]) + (if cells[|cells| - 1] == null then [] else [cells[|cells| - 1]])
  }

  /** The operand map of the reader.  The first request for an entry gets the table's own
      object, every later one a copy. */
  class OperandPool {
    const table: seq<OperandCell>
    var used: seq<bool>
    ghost var handed: seq<OperandCell>   // every object given out so far

    ghost predicate Valid()
      reads this
    {
      && |used| == |table|
      && Distinct(table) && Distinct(handed)
      && (forall i :: 0 <= i < |table| && !used[i] ==> table[i] !in handed)
    }

    ghost predicate Holds(t: Tables) {
      |t.operands| == |table| && forall i :: 0 <= i < |table| ==> table[i].value == t.operands[i]
    }

    constructor (operands: seq<Operand>)
      ensures Valid() && handed == []
      ensures |table| == |operands| && forall i :: 0 <= i < |table| ==> table[i].value == operands[i]
      ensures forall c :: c in table ==> fresh(c)
    {
      var cells: seq<OperandCell>, flags: seq<bool> := [], [];
      for i := 0 to |operands|
        invariant |cells| == |flags| == i
        invariant forall c :: c in cells ==> fresh(c)
        invariant forall j :: 0 <= j < i ==> cells[j].value == operands[j]
        invariant forall j, k :: 0 <= j < k < i ==> cells[j] != cells[k]
      {
        var c := new OperandCell(operands[i]);
        assert c !in cells;
        cells, flags := cells + [c], flags + [false];
      }
      table, used := cells, flags;
      handed := [];
    }

    /** The object for an operand id; id 0 is the empty slot. */
    method Take(id: nat) returns (c: OperandCell?)
      requires Valid() && id <= |table|
      modifies this
      ensures Valid()
      ensures id == 0 ==> c == null && handed == old(handed)
      ensures id > 0 ==> c != null && c.value == table[id - 1].value
      ensures id > 0 ==> c !in old(handed) && handed == old(handed) + [c]
    {
      if id == 0 {
        return null;
      }
      if used[id - 1] {
        c := new OperandCell(table[id - 1].value);
      } else {
        c := table[id - 1];
        used := used[id - 1 := true];
      }
      assert c !in handed;
      handed := handed + [c];
    }

    /** Reads one operand id and takes an object for it. */
    method ReadId(input: Input, ghost t: Tables) returns (ok: bool, c: OperandCell?)
      requires Valid() && Holds(t)
      modifies this, input
      ensures Valid()
      ensures var first := DecodeInt(old(input.rest));
        && (ok <==> first.Got? && 0 <= first.value <= |t.operands|)
        && (ok ==> input.rest == first.rest && CellValue(c) == SlotOf(t, first.value))
      ensures ok ==> handed == old(handed) + if c == null then [] else [c]
    {
      hide DecodeInt;
      c := null;
      var id;
      ok, id := input.ReadInt();
      ok := ok && 0 <= id <= |table|;
      if ok {
        c := Take(id);
      }
    }

    /** Reads n operand ids and takes an object for each. */
    method ReadIds(input: Input, n: int, ghost t: Tables) returns (ok: bool, cells: CellSlots)
      requires Valid() && Holds(t)
      modifies this, input
      ensures Valid()
      ensures ok <==> DecodeIds(t, n, old(input.rest)).Got?
      ensures ok ==> DecodeIds(t, n, old(input.rest)) == Got(ViewSlots(CELLS, cells), input.rest)
      ensures ok ==> handed == old(handed) + Objects(cells)
    {
      hide DecodeInt, Resume, DecodeIds, Objects, CellValue, SlotOf, Valid;
      cells, ok := [], true;
      ghost var start := DecodeIds(t, n, input.rest);
      ResumeNothing(start);
      NoCells();
      assert handed + [] == handed;
      var i := 0;
      while i < n
        invariant Valid()
        invariant n > 0 ==> i <= n
        invariant start == Resume(ViewSlots(CELLS, cells), DecodeIds(t, n - i, input.rest))
        invariant handed == old(handed) + Objects(cells)
      {
        IdsStep(t, ViewSlots(CELLS, cells), n - i, input.rest);
        var good, c := ReadId(input, t);
        if !good {
          return false, cells;
        }
        ValuesSnoc(cells, c);
        AssocCells(old(handed), Objects(cells), if c == null then [] else [c]);
        cells := cells + [c];
        i := i + 1;
      }
      IdsStep(t, ViewSlots(CELLS, cells), n - i, input.rest);
    }
  }

  /** What an operand id stands for. */
  function SlotOf(t: Tables, id: int): Option<Operand>
    requires 0 <= id <= |t.operands|
  {
    if id == 0 then None else Some(t.operands[id - 1])
  }

  lemma ValuesSnoc(cells: CellSlots, c: OperandCell?)
    ensures ViewSlots(CELLS, cells + [c]) == ViewSlots(CELLS, cells) + [CellValue(c)]
    ensures Objects(cells + [c]) == Objects(cells) + if c == null then [] else [c]
  {
    assert (cells + [c])[..|cells|] == cells;
  }

  lemma NoCells()
    ensures ViewSlots(CELLS, []) == [] && Objects([]) == []
  {
  }

  /** One turn of the id loop. */
  lemma IdsStep(t: Tables, s: Slots, n: int, bs: seq<Byte>)
    ensures n <= 0 ==> Resume(s, DecodeIds(t, n, bs)) == Got(s, bs)
    ensures n > 0 ==>
              var first := DecodeInt(bs);
              Resume(s, DecodeIds(t, n, bs)) ==
              if first.Fail? || !(0 <= first.value <= |t.operands|) then Fail
              else Resume(s + [SlotOf(t, first.value)], DecodeIds(t, n - 1, first.rest))
  {
    hide DecodeInt;
    ResumeEnd(s, bs);
    var first := DecodeInt(bs);
    if n > 0 && first.Got? && 0 <= first.value <= |t.operands| {
      ResumeCons(s, SlotOf(t, first.value), DecodeIds(t, n - 1, first.rest));
    }
  }

  // ----- reader -----

  ghost function AttrObjects(attrs: seq<CellAttr>): seq<OperandCell> {
    if attrs == [] then []
    else AttrObjects(attrs[..|attrs| - 1]) + Objects(attrs[|attrs| - 1].fields)
  }

  lemma AttrSnoc(attrs: seq<CellAttr>, a: CellAttr)
    ensures ViewAttrs(CELLS, attrs + [a]) == ViewAttrs(CELLS, attrs) + [Attr(a.name, ViewSlots(CELLS, a.fields))]
    ensures AttrObjects(attrs + [a]) == AttrObjects(attrs) + Objects(a.fields)
  {
    assert (attrs + [a])[..|attrs|] == attrs;
  }

  lemma NoAttrs()
    ensures ViewAttrs(CELLS, []) == [] && AttrObjects([]) == []
  {
  }

  /** One turn of the attribute loop. */
  lemma AttrsStep(t: Tables, s: seq<Attr>, n: int, bs: seq<Byte>)
    ensures n <= 0 ==> Resume(s, DecodeAttrs(t, n, bs)) == Got(s, bs)
    ensures n > 0 ==>
              var first := DecodeAttr(t, bs);
              Resume(s, DecodeAttrs(t, n, bs)) ==
              if first.Fail? then Fail else Resume(s + [first.value], DecodeAttrs(t, n - 1, first.rest))
  {
    hide DecodeAttr;
    ResumeEnd(s, bs);
    if n > 0 && DecodeAttr(t, bs).Got? {
      var first := DecodeAttr(t, bs);
      ResumeCons(s, first.value, DecodeAttrs(t, n - 1, first.rest));
    }
  }

  ghost function RecordObjects(o: CellRecord): seq<OperandCell> {
    Objects(o.src) + (Objects(o.dest) + (Objects(o.pred) + AttrObjects(o.attrs)))
  }

  class OperReader {
    const input: Input
    const pool: OperandPool
    const m: Machine
    const t: Tables

    constructor (input: Input, pool: OperandPool, m: Machine, t: Tables)
      requires pool.Holds(t)
      ensures this.input == input && this.pool == pool && this.m == m && this.t == t
    {
      this.input, this.pool, this.m, this.t := input, pool, m, t;
    }

    method ReadSlots(max: nat) returns (ok: bool, cells: CellSlots)
      requires pool.Valid() && pool.Holds(t)
      modifies pool, input
      ensures pool.Valid()
      ensures ok <==> DecodeSlots(t, max, old(input.rest)).Got?
      ensures ok ==> DecodeSlots(t, max, old(input.rest)) == Got(ViewSlots(CELLS, cells), input.rest)
      ensures ok ==> pool.handed == old(pool.handed) + Objects(cells)
    {
      hide DecodeInt, DecodeIds, Objects;
      cells := [];
      var n;
      ok, n := input.ReadInt();
      if !ok || n > max {
        return false, [];
      }
      ok, cells := pool.ReadIds(input, n, t);
    }

    method ReadName() returns (ok: bool, name: Text)
      modifies input
      ensures ok <==> DecodeName(t, old(input.rest)).Got?
      ensures ok ==> DecodeName(t, old(input.rest)) == Got(name, input.rest)
    {
      hide DecodeInt;
      name := [];
      var n;
      ok, n := input.ReadInt();
      if !ok || !(1 <= n <= |t.strings|) {
        return false, [];
      }
      name := t.strings[n - 1];
    }

    /** The flags behind a flag string id. */
    method ReadFlags(order: seq<Byte>) returns (ok: bool, flags: Option<set<Byte>>)
      modifies input
      ensures ok <==> DecodeFlags(order, t, old(input.rest)).Got?
      ensures ok ==> DecodeFlags(order, t, old(input.rest)) == Got(flags, input.rest)
    {
      hide DecodeInt, FlagSet;
      flags := None;
      var n, letters;
      ok, n := input.ReadInt();
      if !ok || !(0 <= n <= |t.strings|) {
        return false, None;
      }
      if n > 0 {
        ok, letters := StringToFlags(order, t.strings[n - 1]);
        flags := Some(letters);
      }
    }

    method ReadAttr() returns (ok: bool, a: CellAttr)
      requires pool.Valid() && pool.Holds(t)
      modifies pool, input
      ensures pool.Valid()
      ensures ok <==> DecodeAttr(t, old(input.rest)).Got?
      ensures ok ==> DecodeAttr(t, old(input.rest)) == Got(Attr(a.name, ViewSlots(CELLS, a.fields)), input.rest)
      ensures ok ==> pool.handed == old(pool.handed) + Objects(a.fields)
    {
      hide DecodeName, DecodeSlots, Objects;
      a := Attr([], []);
      var name, fields;
      ok, name := ReadName();
      if !ok {
        return;
      }
      ok, fields := ReadSlots(MAX_INT);
      a := Attr(name, fields);
    }

    method ReadAttrs(n: int) returns (ok: bool, attrs: seq<CellAttr>)
      requires pool.Valid() && pool.Holds(t)
      modifies pool, input
      ensures pool.Valid()
      ensures ok <==> DecodeAttrs(t, n, old(input.rest)).Got?
      ensures ok ==> DecodeAttrs(t, n, old(input.rest)) == Got(ViewAttrs(CELLS, attrs), input.rest)
      ensures ok ==> pool.handed == old(pool.handed) + AttrObjects(attrs)
    {
      hide DecodeAttr, Resume, Objects, DecodeAttrs, AttrObjects, ViewAttr;
      attrs, ok := [], true;
      ghost var start := DecodeAttrs(t, n, input.rest);
      ResumeNothing(start);
      NoAttrs();
      assert pool.handed + [] == pool.handed;
      var i := 0;
      while i < n
        invariant pool.Valid()
        invariant n > 0 ==> i <= n
        invariant start == Resume(ViewAttrs(CELLS, attrs), DecodeAttrs(t, n - i, input.rest))
        invariant pool.handed == old(pool.handed) + AttrObjects(attrs)
      {
        AttrsStep(t, ViewAttrs(CELLS, attrs), n - i, input.rest);
        var good, a := ReadAttr();
        if !good {
          return false, [];
        }
        AttrSnoc(attrs, a);
        AssocCells(old(pool.handed), AttrObjects(attrs), Objects(a.fields));
        attrs := attrs + [a];
        i := i + 1;
      }
      AttrsStep(t, ViewAttrs(CELLS, attrs), n - i, input.rest);
    }

    /** From the attributes on; a record that goes on after them is not supported. */
    method ReadRestFromAttrs(o: CellRecord) returns (ok: bool, r: CellRecord)
      requires pool.Valid() && pool.Holds(t) && o.attrs == []
      modifies pool, input
      ensures pool.Valid()
      ensures ok <==> ReadAttrPart(t, ViewRecord(CELLS, o), old(input.rest)).Got?
      ensures ok ==> ReadAttrPart(t, ViewRecord(CELLS, o), old(input.rest)) == Got(ViewRecord(CELLS, r), input.rest)
      ensures ok ==> r.(attrs := []) == o && pool.handed == old(pool.handed) + AttrObjects(r.attrs)
    {
      hide DecodeInt, DecodeAttrs, PeekSpecial;
      r := o;
      if PeekSpecial(input.rest) {
        return true, o;
      }
      var n;
      ok, n := input.ReadInt();
      if !ok {
        return;
      }
      var attrs;
      ok, attrs := ReadAttrs(n);
      ok := ok && PeekSpecial(input.rest);
      r := o.(attrs := attrs);
    }

    method ReadRestFromPred(o: CellRecord) returns (ok: bool, r: CellRecord)
      requires pool.Valid() && pool.Holds(t) && o.attrs == [] && o.pred == []
      modifies pool, input
      ensures pool.Valid()
      ensures ok <==> ReadPredPart(m, t, ViewRecord(CELLS, o), old(input.rest)).Got?
      ensures ok ==> ReadPredPart(m, t, ViewRecord(CELLS, o), old(input.rest)) == Got(ViewRecord(CELLS, r), input.rest)
      ensures ok ==> r.src == o.src && r.dest == o.dest
      ensures ok ==> pool.handed == old(pool.handed) + (Objects(r.pred) + AttrObjects(r.attrs))
    {
      hide DecodeSlots, ReadAttrPart, PeekSpecial, Objects, AttrObjects;
      r := o;
      if PeekSpecial(input.rest) {
        NoCells();
        NoAttrs();
        return true, o;
      }
      var cells;
      ok, cells := ReadSlots(m.maxPred);
      if !ok {
        return;
      }
      ok, r := ReadRestFromAttrs(o.(pred := cells));
    }

    method ReadRestFromFlags(o: CellRecord) returns (ok: bool, r: CellRecord)
      requires pool.Valid() && pool.Holds(t) && o.attrs == [] && o.pred == []
      modifies pool, input
      ensures pool.Valid()
      ensures ok <==> ReadFlagPart(m, t, ViewRecord(CELLS, o), old(input.rest)).Got?
      ensures ok ==> ReadFlagPart(m, t, ViewRecord(CELLS, o), old(input.rest)) == Got(ViewRecord(CELLS, r), input.rest)
      ensures ok ==> r.src == o.src && r.dest == o.dest
      ensures ok ==> pool.handed == old(pool.handed) + (Objects(r.pred) + AttrObjects(r.attrs))
    {
      hide DecodeFlags, ReadPredPart, PeekSpecial, Objects, AttrObjects;
      r := o;
      if PeekSpecial(input.rest) {
        NoCells();
        NoAttrs();
        return true, o;
      }
      var flags;
      ok, flags := ReadFlags(OPER_FLAGS);
      if !ok {
        return;
      }
      ok, r := ReadRestFromPred(o.(flags := flags));
    }

    method ReadRestFromDest(o: CellRecord) returns (ok: bool, r: CellRecord)
      requires pool.Valid() && pool.Holds(t) && o.attrs == [] && o.pred == o.dest == []
      modifies pool, input
      ensures pool.Valid()
      ensures ok <==> ReadDestPart(m, t, ViewRecord(CELLS, o), old(input.rest)).Got?
      ensures ok ==> ReadDestPart(m, t, ViewRecord(CELLS, o), old(input.rest)) == Got(ViewRecord(CELLS, r), input.rest)
      ensures ok ==> r.src == o.src
      ensures ok ==> pool.handed == old(pool.handed) + (Objects(r.dest) + (Objects(r.pred) + AttrObjects(r.attrs)))
    {
      hide DecodeSlots, ReadFlagPart, PeekSpecial, Objects, AttrObjects;
      r := o;
      if PeekSpecial(input.rest) {
        NoCells();
        NoAttrs();
        return true, o;
      }
      var cells;
      ok, cells := ReadSlots(m.maxDest);
      if !ok {
        return;
      }
      ok, r := ReadRestFromFlags(o.(dest := cells));
    }

    method ReadRestFromSrc(o: CellRecord) returns (ok: bool, r: CellRecord)
      requires pool.Valid() && pool.Holds(t) && o.attrs == [] && o.pred == o.dest == o.src == []
      modifies pool, input
      ensures pool.Valid()
      ensures ok <==> ReadSrcPart(m, t, ViewRecord(CELLS, o), old(input.rest)).Got?
      ensures ok ==> ReadSrcPart(m, t, ViewRecord(CELLS, o), old(input.rest)) == Got(ViewRecord(CELLS, r), input.rest)
      ensures ok ==> pool.handed == old(pool.handed) + RecordObjects(r)
    {
      hide DecodeSlots, ReadDestPart, PeekSpecial, Objects, AttrObjects;
      r := o;
      if PeekSpecial(input.rest) {
        NoCells();
        NoAttrs();
        return true, o;
      }
      var cells;
      ok, cells := ReadSlots(m.maxSrc);
      if !ok {
        return;
      }
      ok, r := ReadRestFromDest(o.(src := cells));
    }

    method ReadCom(n: nat) returns (ok: bool, com: seq<int>)
      modifies input
      ensures ok <==> DecodeCom(n, old(input.rest)).Got?
      ensures ok ==> DecodeCom(n, old(input.rest)) == Got(com, input.rest)
      decreases n
    {
      hide DecodeInt;
      com := [];
      if n == 0 {
        return true, [];
      }
      var first;
      ok, first := input.ReadInt();
      if !ok {
        return;
      }
      ok, com := ReadCom(n - 1);
      com := [Narrow8(first)] + com;
    }

    /** Reads one record.  The objects in its slots are all new to the reader: none of them is
        in any operation read before. */
    method ReadOper() returns (ok: bool, o: CellRecord)
      requires pool.Valid() && pool.Holds(t)
      modifies pool, input
      ensures pool.Valid()
      ensures ok <==> DecodeOper(m, t, old(input.rest)).Got?
      ensures ok ==> DecodeOper(m, t, old(input.rest)) == Got(ViewRecord(CELLS, o), input.rest)
      ensures ok ==> pool.handed == old(pool.handed) + RecordObjects(o)
    {
      hide DecodeInt, DecodeName, DecodeCom, ReadSrcPart, PeekSpecial, Objects;
      o := NewRecord(0, [], []);
      if !PeekSpecial(input.rest) {
        return false, o;
      }
      var id, opcode, com;
      ok, id := input.ReadInt();
      if !ok {
        return;
      }
      ok, opcode := ReadName();
      if !ok {
        return;
      }
      ok, com := ReadCom(ComCount(m, opcode));
      if !ok {
        return;
      }
      NoCells();
      NoAttrs();
      o := NewRecord(id, opcode, com);
      assert ViewRecord(CELLS, o) == NewRecord(id, opcode, com);
      ok, o := ReadRestFromSrc(o);
    }

    /** The operation loop of a block.  Slots of different operations, and different slots of one
        operation, never share an operand object, nor do they share one with anything read before. */
    method ReadOpers(n: nat) returns (ok: bool, ops: seq<CellRecord>)
      requires pool.Valid() && pool.Holds(t)
      modifies pool, input
      ensures pool.Valid()
      ensures ok <==> DecodeOpers(m, t, n, old(input.rest)).Got?
      ensures ok ==> DecodeOpers(m, t, n, old(input.rest)) == Got(ViewRecords(CELLS, ops), input.rest)
      ensures ok ==> Takes(OpersObjects(ops), old(pool.handed), pool.handed)
    {
      hide DecodeOper, DecodeOpers, RecordObjects, ViewRecord, Takes, Resume, OpersObjects;
      ok, ops := true, [];
      ghost var start, before := DecodeOpers(m, t, n, input.rest), pool.handed;
      NoOpers();
      TakesNothing(before);
      ResumeNothing(start);
      while |ops| < n
        invariant |ops| <= n && pool.Valid()
        invariant Resume(ViewRecords(CELLS, ops), DecodeOpers(m, t, n - |ops|, input.rest)) == start
        invariant Takes(OpersObjects(ops), before, pool.handed)
        decreases |input.rest|, n - |ops|
      {
        OpersStep(m, t, ViewRecords(CELLS, ops), n - |ops|, input.rest);
        ghost var handed := pool.handed;
        var parent := input.rest != [] && input.rest[0] == PARENT_MARK;
        if parent {
          input.rest := input.rest[1..];
        }
        var o;
        ok, o := ReadOper();
        if !ok {
          return;
        }
        TakesExactly(handed, RecordObjects(o));
        TakesBoth(OpersObjects(ops), RecordObjects(o), before, handed, pool.handed);
        if !parent {
          OpersSnoc(ops, o);
          ops := ops + [o];
        }
      }
      OpersStep(m, t, ViewRecords(CELLS, ops), 0, input.rest);
    }
  }

  ghost function OpersObjects(ops: seq<CellRecord>): seq<OperandCell> {
    if ops == [] then [] else OpersObjects(ops[..|ops| - 1]) + RecordObjects(ops[|ops| - 1])
  }

  lemma NoOpers()
    ensures ViewRecords(CELLS, []) == [] && OpersObjects([]) == []
  {
  }

  lemma OpersSnoc(ops: seq<CellRecord>, o: CellRecord)
    ensures ViewRecords(CELLS, ops + [o]) == ViewRecords(CELLS, ops) + [ViewRecord(CELLS, o)]
    ensures OpersObjects(ops + [o]) == OpersObjects(ops) + RecordObjects(o)
  {
    assert (ops + [o])[..|ops|] == ops;
  }

  /** The objects were handed out between two states of the pool: they differ from each other and
      from everything handed out before, and the pool knows them from now on. */
  ghost predicate Takes(cells: seq<OperandCell>, before: seq<OperandCell>, after: seq<OperandCell>) {
    && Distinct(cells)
    && (forall c :: c in cells ==> c !in before)
    && (forall c :: c in cells ==> c in after)
    && (forall c :: c in before ==> c in after)
  }

  lemma TakesNothing(handed: seq<OperandCell>)
    ensures Takes([], handed, handed)
  {
  }

  lemma TakesExactly(handed: seq<OperandCell>, more: seq<OperandCell>)
    requires Distinct(handed + more)
    ensures Takes(more, handed, handed + more)
  {
    var all := handed + more;
    assert forall i :: 0 <= i < |handed| ==> all[i] == handed[i];
    forall k | 0 <= k < |more|
      ensures more[k] == all[|handed| + k]
    {
    }
  }

  /** Two takings in a row; the second alone also extends the first. */
  lemma TakesBoth(first: seq<OperandCell>, second: seq<OperandCell>,
                  h0: seq<OperandCell>, h1: seq<OperandCell>, h2: seq<OperandCell>)
    requires Takes(first, h0, h1) && Takes(second, h1, h2)
    ensures Takes(first + second, h0, h2) && Takes(first, h0, h2)
  {
    var all := first + second;
    forall i, j | 0 <= i < j < |all|
      ensures all[i] != all[j]
    {
      if i < |first| <= j {
        assert first[i] in first && second[j - |first|] in second;
      }
    }
  }

  /** One turn of the operation loop. */
  lemma OpersStep(m: Machine, t: Tables, s: seq<Record>, n: nat, bs: seq<Byte>)
    ensures n == 0 ==> Resume(s, DecodeOpers(m, t, n, bs)) == Got(s, bs)
    ensures n > 0 ==>
              var parent := bs != [] && bs[0] == PARENT_MARK;
              var first := DecodeOper(m, t, if parent then bs[1..] else bs);
              && (first.Got? ==> |first.rest| < |bs|)
              && Resume(s, DecodeOpers(m, t, n, bs)) ==
                 if first.Fail? then Fail
                 else if parent then Resume(s, DecodeOpers(m, t, n, first.rest))
                 else Resume(s + [first.value], DecodeOpers(m, t, n - 1, first.rest))
  {
    hide DecodeOper;
    ResumeEnd(s, bs);
    var first := DecodeOper(m, t, bs);
    if n > 0 && first.Got? && !(bs != [] && bs[0] == PARENT_MARK) {
      ResumeCons(s, first.value, DecodeOpers(m, t, n - 1, first.rest));
    }
  }

  lemma AssocCells(a: seq<OperandCell>, b: seq<OperandCell>, c: seq<OperandCell>)
    ensures a + b + c == a + (b + c)
  {
  }

  // ----- writer -----

  class OperWriter {
    const out: Output
    const t: Tables

    constructor (out: Output, t: Tables)
      ensures this.out == out && this.t == t
    {
      this.out, this.t := out, t;
    }

    /** Number of slots up to the last one in use. */
    static method CountSlots(s: Slots) returns (n: nat)
      ensures n <= |s| && s[..n] == Trim(s)
    {
      n := |s|;
      assert s[..n] == s;
      while n > 0 && s[n - 1].None?
        invariant n <= |s| && Trim(s[..n]) == Trim(s)
      {
        assert s[..n][..n - 1] == s[..n - 1];
        n := n - 1;
      }
      if n > 0 {
        assert s[..n][|s[..n]| - 1] == s[n - 1];
      }
    }

    /** Writes the table position of an operand; fails on one the table does not hold. */
    method PrintOperandId(s: Option<Operand>) returns (ok: bool)
      requires ValidTables(t)
      modifies out
      ensures ok <==> s.None? || s.value in t.operands
      ensures out.bytes == old(out.bytes) + if ok then EncodeInt(SlotId(t, s)) else []
    {
      if s.None? {
        out.WriteInt(0);
        return true;
      }
      var id := Find(t.operands, s.value);
      if id == 0 {
        assert out.bytes + [] == out.bytes;
        return false;
      }
      out.WriteInt(id);
      return true;
    }

    method PrintSlots(s: Slots) returns (ok: bool)
      requires ValidTables(t) && |s| <= MAX_INT
      modifies out
      ensures ok <==> Known(t, s)
      ensures ok ==> out.bytes == old(out.bytes) + EncodeSlots(t, s)
    {
      hide EncodeInt;
      out.WriteInt(|s|);
      ghost var start := out.bytes;
      for i := 0 to |s|
        invariant Known(t, s[..i])
        invariant out.bytes + EncodeIds(t, s[i..]) == start + EncodeIds(t, s)
      {
        assert s[i..][1..] == s[i + 1..];
        Assoc(out.bytes, EncodeInt(SlotId(t, s[i])), EncodeIds(t, s[i + 1..]));
        ok := PrintOperandId(s[i]);
        if !ok {
          return;
        }
      }
      ok := true;
      assert s[..|s|] == s;
      assert out.bytes + [] == out.bytes;
      Assoc(old(out.bytes), EncodeInt(|s|), EncodeIds(t, s));
    }

    method PrintAttr(a: Attr) returns (ok: bool)
      requires ValidTables(t) && |a.fields| <= MAX_INT
      modifies out
      ensures ok <==> Known(t, a.fields)
      ensures ok ==> out.bytes == old(out.bytes) + EncodeAttr(t, a)
    {
      hide EncodeInt, EncodeSlots, Known;
      Assoc(out.bytes, EncodeInt(Find(t.strings, a.name)), EncodeSlots(t, a.fields));
      out.WriteInt(Find(t.strings, a.name));
      ok := PrintSlots(a.fields);
    }

    method PrintAttrs(attrs: seq<Attr>) returns (ok: bool)
      requires ValidTables(t) && SizedAttrs(attrs)
      modifies out
      ensures ok <==> AttrsKnown(t, attrs)
      ensures ok ==> out.bytes == old(out.bytes) + EncodeAttrs(t, attrs)
    {
      hide Known, EncodeAttr, EncodeAttrs;
      ghost var start := out.bytes;
      for i := 0 to |attrs|
        invariant forall j :: 0 <= j < i ==> Known(t, attrs[j].fields)
        invariant out.bytes + EncodeAttrs(t, attrs[i..]) == start + EncodeAttrs(t, attrs)
      {
        FirstAttr(t, attrs, i);
        Assoc(out.bytes, EncodeAttr(t, attrs[i]), EncodeAttrs(t, attrs[i + 1..]));
        ok := PrintAttr(attrs[i]);
        if !ok {
          return;
        }
      }
      ok := true;
      NothingLeft(t, attrs, out.bytes);
    }

    method PrintCom(com: seq<int>)
      requires forall i :: 0 <= i < |com| ==> -128 <= com[i] < 128
      modifies out
      ensures out.bytes == old(out.bytes) + EncodeCom(com)
    {
      for i := 0 to |com|
        invariant out.bytes + EncodeCom(com[i..]) == old(out.bytes) + EncodeCom(com)
      {
        hide EncodeInt;
        assert com[i..][1..] == com[i + 1..];
        Assoc(out.bytes, EncodeInt(com[i]), EncodeCom(com[i + 1..]));
        out.WriteInt(com[i]);
      }
      assert out.bytes + [] == out.bytes;
    }

    /** Everything after the completers; stops as soon as nothing is left to write. */
    method PrintParts(o: Oper, src: Slots, dest: Slots, pred: Slots) returns (ok: bool)
      requires src == Trim(o.src) && dest == Trim(o.dest) && pred == Trim(o.pred)
      requires ValidTables(t) && |src| <= MAX_INT && |dest| <= MAX_INT && |pred| <= MAX_INT && SizedAttrs(o.attrs)
      modifies out
      ensures ok <==> Known(t, src) && Known(t, dest) && Known(t, pred) && AttrsKnown(t, o.attrs)
      ensures ok ==> out.bytes == old(out.bytes) + SrcPart(t, o)
    {
      hide EncodeInt, EncodeSlots, EncodeAttrs, Trim, Find, Known;
      NothingUnknown(t);
      ghost var b0 := out.bytes;
      if |src| + |dest| + (|pred| + |FlagText(o)|) + |o.attrs| == 0 {
        assert b0 + [] == b0;
        return true;
      }
      ok := PrintSlots(src);
      if !ok {
        return;
      }
      Assoc(b0, EncodeSlots(t, src), DestPart(t, o));
      ghost var b1 := out.bytes;
      if |dest| + (|pred| + |FlagText(o)|) + |o.attrs| == 0 {
        assert b1 + [] == b1;
        return;
      }
      ok := PrintSlots(dest);
      if !ok {
        return;
      }
      Assoc(b1, EncodeSlots(t, dest), FlagPart(t, o));
      ok := PrintFromFlags(o, pred);
    }

    method PrintFromFlags(o: Oper, pred: Slots) returns (ok: bool)
      requires pred == Trim(o.pred) && ValidTables(t) && |pred| <= MAX_INT && SizedAttrs(o.attrs)
      modifies out
      ensures ok <==> Known(t, pred) && AttrsKnown(t, o.attrs)
      ensures ok ==> out.bytes == old(out.bytes) + FlagPart(t, o)
    {
      hide EncodeInt, EncodeSlots, EncodeAttrs, Trim, Find, Known;
      NothingUnknown(t);
      ghost var b0 := out.bytes;
      if (|pred| + |FlagText(o)|) + |o.attrs| == 0 {
        assert b0 + [] == b0;
        return true;
      }
      out.WriteInt(FlagId(t, FlagText(o)));
      Assoc(b0, EncodeInt(FlagId(t, FlagText(o))), PredPart(t, o));
      ghost var b1 := out.bytes;
      if |pred| + |o.attrs| == 0 {
        assert b1 + [] == b1;
        return true;
      }
      ok := PrintSlots(pred);
      if !ok {
        return;
      }
      Assoc(b1, EncodeSlots(t, pred), AttrPart(t, o));
      ghost var b2 := out.bytes;
      if |o.attrs| == 0 {
        assert b2 + [] == b2;
        return;
      }
      out.WriteInt(|o.attrs|);
      Assoc(b2, EncodeInt(|o.attrs|), EncodeAttrs(t, o.attrs));
      ok := PrintAttrs(o.attrs);
    }

    /** Writes one record; fails exactly when an operand is not in the table. */
    method PrintOper(m: Machine, o: Oper) returns (ok: bool)
      requires ValidTables(t) && SizedOper(m, o)
      modifies out
      ensures ok <==> OperKnown(t, o)
      ensures ok ==> out.bytes == old(out.bytes) + EncodeOper(t, o)
    {
      hide EncodeInt, EncodeSpecial, EncodeCom, SrcPart, Trim, Known, AttrsKnown, SizedAttrs;
      ghost var b0 := out.bytes;
      var numPred := CountSlots(o.pred);
      var numDest := CountSlots(o.dest);
      var numSrc := CountSlots(o.src);
      TrimKnown(t, o.src);
      TrimKnown(t, o.dest);
      TrimKnown(t, o.pred);
      out.WriteIntSpecial(o.id);
      ghost var b1 := out.bytes;
      out.WriteInt(Find(t.strings, o.opcode));
      ghost var b2 := out.bytes;
      PrintCom(o.com);
      ok := PrintParts(o, o.src[..numSrc], o.dest[..numDest], o.pred[..numPred]);
      Assoc(b2, EncodeCom(o.com), SrcPart(t, o));
      Assoc(b1, EncodeInt(Find(t.strings, o.opcode)), EncodeCom(o.com) + SrcPart(t, o));
      Assoc(b0, EncodeSpecial(o.id), EncodeInt(Find(t.strings, o.opcode)) + (EncodeCom(o.com) + SrcPart(t, o)));
    }

    /** The operation loop of the block writer. */
    method PrintOpers(m: Machine, ops: seq<Oper>) returns (ok: bool)
      requires ValidTables(t) && forall i :: 0 <= i < |ops| ==> SizedOper(m, ops[i])
      modifies out
      ensures ok <==> forall i :: 0 <= i < |ops| ==> OperKnown(t, ops[i])
      ensures ok ==> out.bytes == old(out.bytes) + EncodeOpers(t, ops)
    {
      hide EncodeOper, SizedOper, OperKnown;
      for i := 0 to |ops|
        invariant forall j :: 0 <= j < i ==> OperKnown(t, ops[j])
        invariant out.bytes + EncodeOpers(t, ops[i..]) == old(out.bytes) + EncodeOpers(t, ops)
      {
        assert ops[i..][1..] == ops[i + 1..];
        Assoc(out.bytes, EncodeOper(t, ops[i]), EncodeOpers(t, ops[i + 1..]));
        ok := PrintOper(m, ops[i]);
        if !ok {
          return;
        }
      }
      ok := true;
      assert out.bytes + [] == out.bytes;
    }
  }

  /** One turn of the attribute loop of the writer. */
  lemma FirstAttr(t: Tables, attrs: seq<Attr>, i: nat)
    requires i < |attrs|
    ensures EncodeAttrs(t, attrs[i..]) == EncodeAttr(t, attrs[i]) + EncodeAttrs(t, attrs[i + 1..])
  {
    hide EncodeAttr;
    assert attrs[i..][1..] == attrs[i + 1..];
  }

  lemma NothingLeft(t: Tables, attrs: seq<Attr>, bs: seq<Byte>)
    ensures bs + EncodeAttrs(t, attrs[|attrs|..]) == bs
  {
    assert bs + [] == bs;
  }

  lemma NothingUnknown(t: Tables)
    ensures Known(t, [])
  {
  }

  lemma TrimKnown(t: Tables, s: Slots)
    ensures Known(t, Trim(s)) <==> Known(t, s)
  {
    var trimmed := Trim(s);
    assert s == trimmed + Blank(|s| - |trimmed|);
    assert forall i :: 0 <= i < |trimmed| ==> s[i] == trimmed[i];
  }
}
