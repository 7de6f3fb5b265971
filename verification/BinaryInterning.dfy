/** Building the string and operand tables that precede a function body. */
module BinaryInterning {
  import opened Collections
  import opened BinaryCodec
  import opened Flags
  import opened BinaryOperand
  import opened BinaryOper
  import opened BinaryBody

  datatype Fn<S> = Function(name: Text, flags: set<Byte>, weight: Text, attrs: seq<Attribute<S>>, cbs: seq<Block<S>>)

  type Function = Fn<Slot>

  function FnText(fn: Function): Text {
    FlagString(FUNC_FLAGS, fn.flags)
  }

  // ----- what the scan meets, in order -----

  function Operands(s: Slots): seq<Operand> {
    if s == [] then [] else (if s[0].Some? then [s[0].value] else []) + Operands(s[1..])
  }

  function AttrOperands(attrs: seq<Attr>): seq<Operand> {
    if attrs == [] then [] else Operands(attrs[0].fields) + AttrOperands(attrs[1..])
  }

  function AttrNames(attrs: seq<Attr>): seq<Text> {
    if attrs == [] then [] else [attrs[0].name] + AttrNames(attrs[1..])
  }

  function FlagNames(flags: Text): seq<Text> {
    if flags == [] then [] else [flags]
  }

  function OperOperands(o: Oper): seq<Operand> {
    Operands(o.dest) + Operands(o.src) + Operands(o.pred) + AttrOperands(o.attrs)
  }

  function OperNames(o: Oper): seq<Text> {
    FlagNames(FlagText(o)) + [o.opcode] + AttrNames(o.attrs)
  }

  function OpersOperands(ops: seq<Oper>): seq<Operand> {
    if ops == [] then [] else OperOperands(ops[0]) + OpersOperands(ops[1..])
  }

  function OpersNames(ops: seq<Oper>): seq<Text> {
    if ops == [] then [] else OperNames(ops[0]) + OpersNames(ops[1..])
  }

  function CbsOperands(cbs: seq<Cb>): seq<Operand> {
    if cbs == [] then []
    else AttrOperands(cbs[0].attrs) + OpersOperands(cbs[0].ops) + CbsOperands(cbs[1..])
  }

  function CbsNames(cbs: seq<Cb>): seq<Text> {
    if cbs == [] then []
    else FlagNames(CbText(cbs[0])) + AttrNames(cbs[0].attrs) + OpersNames(cbs[0].ops) + CbsNames(cbs[1..])
  }

  function AllOperands(fn: Function): seq<Operand> {
    AttrOperands(fn.attrs) + CbsOperands(fn.cbs)
  }

  function AllNames(fn: Function): seq<Text> {
    FlagNames(FnText(fn)) + AttrNames(fn.attrs) + CbsNames(fn.cbs)
  }

  /** The table after meeting xs: each new element is appended once, in order of first meeting. */
  function Intern<T(==)>(table: seq<T>, xs: seq<T>): seq<T>
    decreases |xs|
  {
    if xs == [] then table
    else Intern(if xs[0] in table then table else table + [xs[0]], xs[1..])
  }

  lemma {:induction false} InternConcat<T>(table: seq<T>, xs: seq<T>, ys: seq<T>)
    ensures Intern(table, xs + ys) == Intern(Intern(table, xs), ys)
    decreases |xs|
  {
    if xs == [] {
      assert xs + ys == ys;
    } else {
      assert (xs + ys)[1..] == xs[1..] + ys;
      InternConcat(if xs[0] in table then table else table + [xs[0]], xs[1..], ys);
    }
  }

  /** Interning keeps the table free of duplicates, keeps earlier positions, and ends with
      exactly the old entries and the elements met. */
  lemma {:induction false} InternExact<T(!new)>(table: seq<T>, xs: seq<T>)
    requires Distinct(table)
    ensures Distinct(Intern(table, xs))
    ensures table <= Intern(table, xs)
    ensures forall x :: x in Intern(table, xs) <==> x in table || x in xs
    decreases |xs|
  {
    if xs != [] {
      var next := if xs[0] in table then table else table + [xs[0]];
      InternExact(next, xs[1..]);
      assert xs == [xs[0]] + xs[1..];
      assert forall x :: x in xs <==> x == xs[0] || x in xs[1..];
      assert forall x :: x in next <==> x in table || x == xs[0];
    }
  }

  /** In a table without duplicates the id of an element is the one position that holds it. */
  lemma FindIsPosition<T(!new)>(table: seq<T>, k: nat)
    requires Distinct(table) && k < |table|
    ensures Find(table, table[k]) == k + 1
  {
  }

  // ----- the scan -----

  class SymbolTables {
    var strings: seq<Text>
    var operands: seq<Operand>

    constructor ()
      ensures strings == [] && operands == []
    {
      strings, operands := [], [];
    }

    method AddString(s: Text)
      modifies this`strings
      ensures strings == Intern(old(strings), [s])
    {
      if Find(strings, s) == 0 {
        strings := strings + [s];
      }
    }

    method AddFlags(flags: Text)
      modifies this`strings
      ensures strings == Intern(old(strings), FlagNames(flags))
    {
      if flags != [] {
        AddString(flags);
      }
    }

    method AddOperands(s: Slots)
      modifies this`operands
      ensures operands == Intern(old(operands), Operands(s))
    {
      for i := 0 to |s|
        invariant Intern(operands, Operands(s[i..])) == Intern(old(operands), Operands(s))
      {
        assert s[i..][1..] == s[i + 1..];
        if s[i].Some? {
          InternConcat(operands, [s[i].value], Operands(s[i + 1..]));
          if Find(operands, s[i].value) == 0 {
            operands := operands + [s[i].value];
          }
        } else {
          assert [] + Operands(s[i + 1..]) == Operands(s[i + 1..]);
        }
      }
    }

    method AddAttrs(attrs: seq<Attr>)
      modifies this
      ensures strings == Intern(old(strings), AttrNames(attrs))
      ensures operands == Intern(old(operands), AttrOperands(attrs))
    {
      for i := 0 to |attrs|
        invariant Intern(strings, AttrNames(attrs[i..])) == Intern(old(strings), AttrNames(attrs))
        invariant Intern(operands, AttrOperands(attrs[i..])) == Intern(old(operands), AttrOperands(attrs))
      {
        hide Intern;
        assert attrs[i..][1..] == attrs[i + 1..];
        InternConcat(strings, [attrs[i].name], AttrNames(attrs[i + 1..]));
        InternConcat(operands, Operands(attrs[i].fields), AttrOperands(attrs[i + 1..]));
        AddString(attrs[i].name);
        AddOperands(attrs[i].fields);
      }
    }

    method AddOper(o: Oper)
      modifies this
      ensures strings == Intern(old(strings), OperNames(o))
      ensures operands == Intern(old(operands), OperOperands(o))
    {
      hide Intern;
      InternConcat(strings, FlagNames(FlagText(o)), [o.opcode]);
      InternConcat(strings, FlagNames(FlagText(o)) + [o.opcode], AttrNames(o.attrs));
      InternConcat(operands, Operands(o.dest), Operands(o.src));
      InternConcat(operands, Operands(o.dest) + Operands(o.src), Operands(o.pred));
      InternConcat(operands, Operands(o.dest) + Operands(o.src) + Operands(o.pred), AttrOperands(o.attrs));
      AddFlags(FlagText(o));
      AddString(o.opcode);
      AddOperands(o.dest);
      AddOperands(o.src);
      AddOperands(o.pred);
      AddAttrs(o.attrs);
    }

    method AddOpers(ops: seq<Oper>)
      modifies this
      ensures strings == Intern(old(strings), OpersNames(ops))
      ensures operands == Intern(old(operands), OpersOperands(ops))
    {
      for i := 0 to |ops|
        invariant Intern(strings, OpersNames(ops[i..])) == Intern(old(strings), OpersNames(ops))
        invariant Intern(operands, OpersOperands(ops[i..])) == Intern(old(operands), OpersOperands(ops))
      {
        hide Intern, OperNames, OperOperands;
        assert ops[i..][1..] == ops[i + 1..];
        InternConcat(strings, OperNames(ops[i]), OpersNames(ops[i + 1..]));
        InternConcat(operands, OperOperands(ops[i]), OpersOperands(ops[i + 1..]));
        AddOper(ops[i]);
      }
    }

    method AddCb(cb: Cb)
      modifies this
      ensures strings == Intern(old(strings), FlagNames(CbText(cb)) + AttrNames(cb.attrs) + OpersNames(cb.ops))
      ensures operands == Intern(old(operands), AttrOperands(cb.attrs) + OpersOperands(cb.ops))
    {
      hide Intern;
      InternConcat(strings, FlagNames(CbText(cb)), AttrNames(cb.attrs));
      InternConcat(strings, FlagNames(CbText(cb)) + AttrNames(cb.attrs), OpersNames(cb.ops));
      InternConcat(operands, AttrOperands(cb.attrs), OpersOperands(cb.ops));
      AddFlags(CbText(cb));
      AddAttrs(cb.attrs);
      AddOpers(cb.ops);
    }

    /** The scan of a whole function, into empty tables. */
    method Build(fn: Function)
      requires strings == [] && operands == []
      modifies this
      ensures strings == Intern([], AllNames(fn))
      ensures operands == Intern([], AllOperands(fn))
    {
      hide Intern;
      InternConcat(strings, FlagNames(FnText(fn)), AttrNames(fn.attrs));
      InternConcat(strings, FlagNames(FnText(fn)) + AttrNames(fn.attrs), CbsNames(fn.cbs));
      InternConcat(operands, AttrOperands(fn.attrs), CbsOperands(fn.cbs));
      AddFlags(FnText(fn));
      AddAttrs(fn.attrs);
      AddCbs(fn.cbs);
    }

    method AddCbs(cbs: seq<Cb>)
      modifies this
      ensures strings == Intern(old(strings), CbsNames(cbs))
      ensures operands == Intern(old(operands), CbsOperands(cbs))
    {
      for i := 0 to |cbs|
        invariant Intern(strings, CbsNames(cbs[i..])) == Intern(old(strings), CbsNames(cbs))
        invariant Intern(operands, CbsOperands(cbs[i..])) == Intern(old(operands), CbsOperands(cbs))
      {
        hide Intern;
        var cb := cbs[i];
        assert cbs[i..][1..] == cbs[i + 1..];
        InternConcat(strings, FlagNames(CbText(cb)) + AttrNames(cb.attrs) + OpersNames(cb.ops), CbsNames(cbs[i + 1..]));
        InternConcat(operands, AttrOperands(cb.attrs) + OpersOperands(cb.ops), CbsOperands(cbs[i + 1..]));
        AddCb(cb);
      }
    }
  }

  // ----- every function can be written with its own tables -----

  function TablesOf(fn: Function): Tables {
    Tables(Intern([], AllNames(fn)), Intern([], AllOperands(fn)))
  }

  predicate SizedCb(m: Machine, cb: Cb) {
    && 0 <= cb.id <= MAX_INT && IsText(cb.weight) && (forall c :: c in cb.flags ==> c in CB_FLAGS)
    && |cb.flows| <= MAX_INT && ValidFlows(cb.flows)
    && SizedAttrs(cb.attrs)
    && |cb.ops| <= MAX_INT && forall i :: 0 <= i < |cb.ops| ==> SizedOper(m, cb.ops[i])
  }

  predicate SizedFunction(m: Machine, fn: Function) {
    && IsText(fn.name) && IsText(fn.weight) && SizedAttrs(fn.attrs) && (forall c :: c in fn.flags ==> c in FUNC_FLAGS)
    && |TablesOf(fn).strings| <= MAX_INT && |TablesOf(fn).operands| <= MAX_INT
    && |fn.cbs| <= MAX_INT && (forall i :: 0 <= i < |fn.cbs| ==> SizedCb(m, fn.cbs[i]))
  }

  ghost predicate AllIn<T(!new)>(xs: seq<T>, table: seq<T>) {
    forall x :: x in xs ==> x in table
  }

  lemma AllInConcat<T(!new)>(xs: seq<T>, ys: seq<T>, table: seq<T>)
    ensures AllIn(xs + ys, table) <==> AllIn(xs, table) && AllIn(ys, table)
  {
    assert forall x :: x in xs + ys <==> x in xs || x in ys;
  }

  /** The slots are known to a table iff it holds every operand the scan meets in them. */
  lemma {:induction false} SlotsKnown(t: Tables, s: Slots)
    ensures Known(t, s) <==> AllIn(Operands(s), t.operands)
  {
    if s != [] {
      var first: seq<Operand> := if s[0].Some? then [s[0].value] else [];
      AllInConcat(first, Operands(s[1..]), t.operands);
      SlotsKnown(t, s[1..]);
      assert s[0].Some? ==> s[0].value in first;
      assert Known(t, s) <==> (s[0].Some? ==> s[0].value in t.operands) && Known(t, s[1..]) by {
        assert forall i :: 1 <= i < |s| ==> s[i] == s[1..][i - 1];
        assert forall i :: 0 <= i < |s[1..]| ==> s[1..][i] == s[i + 1];
      }
    }
  }

  lemma {:induction false} AttrsAreKnown(t: Tables, attrs: seq<Attr>)
    ensures AttrsKnown(t, attrs) <==> AllIn(AttrOperands(attrs), t.operands)
  {
    hide Known, AllIn, Operands;
    if attrs == [] {
      NoneIn(t.operands);
    } else {
      var a, others := attrs[0], attrs[1..];
      AllInConcat(Operands(a.fields), AttrOperands(others), t.operands);
      SlotsKnown(t, a.fields);
      AttrsAreKnown(t, others);
      assert forall i :: 1 <= i < |attrs| ==> attrs[i] == others[i - 1];
      assert forall i :: 0 <= i < |others| ==> others[i] == attrs[i + 1];
    }
  }

  lemma NoneIn<T(!new)>(table: seq<T>)
    ensures AllIn([], table)
  {
  }

  lemma OperIsKnown(t: Tables, o: Oper)
    ensures OperKnown(t, o) <==> AllIn(OperOperands(o), t.operands)
  {
    hide AllIn, AttrOperands, Operands, Known, AttrsKnown;
    var d, s, p, a := Operands(o.dest), Operands(o.src), Operands(o.pred), AttrOperands(o.attrs);
    AllInConcat(d + s + p, a, t.operands);
    AllInConcat(d + s, p, t.operands);
    AllInConcat(d, s, t.operands);
    SlotsKnown(t, o.dest);
    SlotsKnown(t, o.src);
    SlotsKnown(t, o.pred);
    AttrsAreKnown(t, o.attrs);
  }

  predicate OpersKnown(t: Tables, ops: seq<Oper>) {
    forall i :: 0 <= i < |ops| ==> OperKnown(t, ops[i])
  }

  lemma {:induction false} OpersAreKnown(t: Tables, ops: seq<Oper>)
    ensures OpersKnown(t, ops) <==> AllIn(OpersOperands(ops), t.operands)
  {
    hide AllIn, OperOperands, OperKnown;
    if ops == [] {
      NoneIn(t.operands);
    } else {
      var others := ops[1..];
      AllInConcat(OperOperands(ops[0]), OpersOperands(others), t.operands);
      OperIsKnown(t, ops[0]);
      OpersAreKnown(t, others);
      assert forall i :: 1 <= i < |ops| ==> ops[i] == others[i - 1];
      assert forall i :: 0 <= i < |others| ==> others[i] == ops[i + 1];
    }
  }

  predicate CbKnown(t: Tables, cb: Cb) {
    AttrsKnown(t, cb.attrs) && OpersKnown(t, cb.ops)
  }

  predicate CbsKnown(t: Tables, cbs: seq<Cb>) {
    forall i :: 0 <= i < |cbs| ==> CbKnown(t, cbs[i])
  }

  lemma {:induction false} CbsAreKnown(t: Tables, cbs: seq<Cb>)
    ensures CbsKnown(t, cbs) <==> AllIn(CbsOperands(cbs), t.operands)
  {
    hide AllIn, AttrOperands, OpersOperands, AttrsKnown, OpersKnown;
    if cbs == [] {
      NoneIn(t.operands);
    } else {
      var cb, others := cbs[0], cbs[1..];
      AllInConcat(AttrOperands(cb.attrs) + OpersOperands(cb.ops), CbsOperands(others), t.operands);
      AllInConcat(AttrOperands(cb.attrs), OpersOperands(cb.ops), t.operands);
      AttrsAreKnown(t, cb.attrs);
      OpersAreKnown(t, cb.ops);
      CbsAreKnown(t, others);
      assert forall i :: 1 <= i < |cbs| ==> cbs[i] == others[i - 1];
      assert forall i :: 0 <= i < |others| ==> others[i] == cbs[i + 1];
    }
  }

  // ----- the same for the strings -----

  lemma {:induction false} AttrsCovered(t: Tables, attrs: seq<Attr>)
    requires SizedAttrs(attrs) && AttrsKnown(t, attrs) && AllIn(AttrNames(attrs), t.strings)
    ensures forall i :: 0 <= i < |attrs| ==> ValidAttr(t, attrs[i])
    decreases |attrs|
  {
    hide Known;
    if attrs != [] {
      var others := attrs[1..];
      AllInConcat([attrs[0].name], AttrNames(others), t.strings);
      SingleIn(t.strings, attrs[0].name);
      assert forall i :: 0 <= i < |others| ==> others[i] == attrs[i + 1];
      AttrsCovered(t, others);
      assert forall i :: 1 <= i < |attrs| ==> attrs[i] == others[i - 1];
    }
  }

  lemma SingleIn<T(!new)>(table: seq<T>, x: T)
    ensures AllIn([x], table) ==> x in table
  {
    assert x in [x];
  }

  lemma OperCovered(m: Machine, t: Tables, o: Oper)
    requires ValidTables(t) && SizedOper(m, o) && OperKnown(t, o) && AllIn(OperNames(o), t.strings)
    ensures ValidOper(m, t, o)
  {
    hide AllIn, AttrNames, Known, AttrsKnown, ValidAttr;
    AllInConcat(FlagNames(FlagText(o)) + [o.opcode], AttrNames(o.attrs), t.strings);
    AllInConcat(FlagNames(FlagText(o)), [o.opcode], t.strings);
    AttrsCovered(t, o.attrs);
    SingleIn(t.strings, o.opcode);
    SingleIn(t.strings, FlagText(o));
  }

  lemma {:induction false} OpersCovered(m: Machine, t: Tables, ops: seq<Oper>)
    requires ValidTables(t) && forall i :: 0 <= i < |ops| ==> SizedOper(m, ops[i])
    requires OpersKnown(t, ops) && AllIn(OpersNames(ops), t.strings)
    ensures forall i :: 0 <= i < |ops| ==> ValidOper(m, t, ops[i])
    decreases |ops|
  {
    hide AllIn, OperNames, SizedOper, ValidOper, OperKnown;
    if ops != [] {
      var others := ops[1..];
      AllInConcat(OperNames(ops[0]), OpersNames(others), t.strings);
      OperCovered(m, t, ops[0]);
      assert forall i :: 0 <= i < |others| ==> others[i] == ops[i + 1];
      OpersCovered(m, t, others);
      assert forall i :: 1 <= i < |ops| ==> ops[i] == others[i - 1];
    }
  }

  /** What the scan met is all the block printers look up, so none of them fails. */
  lemma {:induction false} CbsCovered(m: Machine, t: Tables, cbs: seq<Cb>)
    requires ValidTables(t) && forall i :: 0 <= i < |cbs| ==> SizedCb(m, cbs[i])
    requires CbsKnown(t, cbs) && AllIn(CbsNames(cbs), t.strings)
    ensures ValidCbs(m, t, cbs)
    decreases |cbs|
  {
    hide AllIn, AttrNames, OpersNames, SizedOper, ValidOper, ValidAttr, ValidFlows, AttrsKnown, OpersKnown;
    hide FlagString;
    if cbs != [] {
      var cb, others := cbs[0], cbs[1..];
      assert CbKnown(t, cb);
      AllInConcat(FlagNames(CbText(cb)) + AttrNames(cb.attrs) + OpersNames(cb.ops), CbsNames(others), t.strings);
      AllInConcat(FlagNames(CbText(cb)) + AttrNames(cb.attrs), OpersNames(cb.ops), t.strings);
      AllInConcat(FlagNames(CbText(cb)), AttrNames(cb.attrs), t.strings);
      SingleIn(t.strings, CbText(cb));
      AttrsCovered(t, cb.attrs);
      OpersCovered(m, t, cb.ops);
      assert forall i :: 0 <= i < |others| ==> others[i] == cbs[i + 1];
      CbsCovered(m, t, others);
      assert forall i :: 1 <= i < |cbs| ==> cbs[i] == others[i - 1];
    }
  }

  /** The tables of a function's own scan hold everything in it, each entry once. */
  lemma OwnTables(m: Machine, fn: Function)
    requires SizedFunction(m, fn)
    ensures var t := TablesOf(fn);
      && Distinct(t.strings) && Distinct(t.operands)
      && CbsKnown(t, fn.cbs) && ValidCbs(m, t, fn.cbs)
      && AttrsKnown(t, fn.attrs) && (forall i :: 0 <= i < |fn.attrs| ==> ValidAttr(t, fn.attrs[i]))
      && (FnText(fn) != [] ==> FnText(fn) in t.strings)
      && (forall o :: o in t.operands <==> o in AllOperands(fn))
      && (forall s :: s in t.strings <==> s in AllNames(fn))
  {
    hide Intern, CbsNames, CbsOperands, ValidCbs, SizedCb, AttrNames, AttrOperands, ValidAttr, CbsKnown, AttrsKnown;
    var t := TablesOf(fn);
    InternExact<Text>([], AllNames(fn));
    InternExact<Operand>([], AllOperands(fn));
    AllInConcat(AttrOperands(fn.attrs), CbsOperands(fn.cbs), t.operands);
    AllInConcat(FlagNames(FnText(fn)) + AttrNames(fn.attrs), CbsNames(fn.cbs), t.strings);
    AllInConcat(FlagNames(FnText(fn)), AttrNames(fn.attrs), t.strings);
    SingleIn(t.strings, FnText(fn));
    AttrsAreKnown(t, fn.attrs);
    CbsAreKnown(t, fn.cbs);
    AttrsCovered(t, fn.attrs);
    CbsCovered(m, t, fn.cbs);
  }
}
