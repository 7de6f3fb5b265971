/** Address prediction in one loop: which loads depend on a loaded value, which register is the
    base, and how each load is marked. */
module AddrPred {
  import opened Collections

  /** Other stands for a missing operand and for everything that is neither a register nor an
      integer constant. */
  datatype Operand = Register(id: int, ctype: int) | IntConstant | Other

  datatype Attr = SetupImpliedReg | DontPredict | Predict | Unrelated(name: string)

  class Oper {
    const load: bool
    const store: bool
    const dest: Operand
    const src0: Operand
    const src1: Operand
    var attrs: seq<Attr>

    constructor (load: bool, store: bool, dest: Operand, src0: Operand, src1: Operand, attrs: seq<Attr>) {
      this.load, this.store := load, store;
      this.dest, this.src0, this.src1 := dest, src0, src1;
      this.attrs := attrs;
    }

    predicate Marked()
      reads this
    {
      SetupImpliedReg in attrs || DontPredict in attrs || Predict in attrs
    }
  }

  // ----- which registers hold loaded values -----

  predicate IsReg(x: Operand, r: int) {
    x.Register? && x.id == r
  }

  predicate Reads(op: Oper, r: int) {
    IsReg(op.src0, r) || IsReg(op.src1, r)
  }

  /** The op hands a value in r on to its destination register. */
  predicate Passes(op: Oper, r: int) {
    !op.store && op.dest.Register? && Reads(op, r)
  }

  /** A chain of positions in the body that starts at a load and passes its value on: each op
      but the first is a non-store that reads the register the one before it wrote, and the last
      writes r. */
  ghost predicate Carries(body: seq<Oper>, chain: seq<nat>, r: int) {
    && chain != []
    && (forall i :: 0 <= i < |chain| ==> chain[i] < |body| && body[chain[i]].dest.Register?)
    && body[chain[0]].load
    && (forall i, j :: 0 <= i && j == i + 1 < |chain| ==> Passes(body[chain[j]], body[chain[i]].dest.id))
    && body[chain[|chain| - 1]].dest.id == r
  }

  ghost predicate Loaded(body: seq<Oper>, r: int) {
    exists chain :: Carries(body, chain, r)
  }

  /** The set holds every load destination and is closed under the non-store ops. */
  ghost predicate Closed(body: seq<Oper>, s: set<int>) {
    && (forall op :: op in body && op.load && op.dest.Register? ==> op.dest.id in s)
    && (forall op, r :: op in body && Passes(op, r) && r in s ==> op.dest.id in s)
  }

  lemma ChainStart(body: seq<Oper>, k: nat)
    requires k < |body| && body[k].load && body[k].dest.Register?
    ensures Loaded(body, body[k].dest.id)
  {
    assert Carries(body, [k], body[k].dest.id);
  }

  lemma ChainStep(body: seq<Oper>, r: int, k: nat)
    requires Loaded(body, r) && k < |body| && Passes(body[k], r)
    ensures Loaded(body, body[k].dest.id)
  {
    var chain :| Carries(body, chain, r);
    assert Carries(body, chain + [k], body[k].dest.id);
  }

  /** Every closed set holds every register a chain can reach. */
  lemma {:induction false} ClosedHoldsCarried(body: seq<Oper>, s: set<int>, chain: seq<nat>, r: int)
    requires Closed(body, s) && Carries(body, chain, r)
    ensures r in s
    decreases |chain|
  {
    var n := |chain| - 1;
    if n > 0 {
      var before := body[chain[n - 1]].dest.id;
      ClosedHoldsCarried(body, s, chain[..n], before);
      assert Passes(body[chain[n]], before);
    }
  }

  /** A set of carried registers that is closed is exactly the carried registers, and lies
      within every closed set. */
  lemma ClosedIsLeast(body: seq<Oper>, s: set<int>)
    requires Closed(body, s) && forall r :: r in s ==> Loaded(body, r)
    ensures forall r :: r in s <==> Loaded(body, r)
    ensures forall t :: Closed(body, t) ==> s <= t
  {
    forall r | Loaded(body, r)
      ensures r in s
    {
      var chain :| Carries(body, chain, r);
      ClosedHoldsCarried(body, s, chain, r);
    }
    forall t, r | Closed(body, t) && r in s
      ensures r in t
    {
      var chain :| Carries(body, chain, r);
      ClosedHoldsCarried(body, t, chain, r);
    }
  }

  ghost function Ids(list: seq<int>): set<int> {
    set r | r in list
  }

  /** Registers written by the body: they bound the growth of the list. */
  ghost function Written(body: seq<Oper>): set<int> {
    set op | op in body && op.dest.Register? :: op.dest.id
  }

  /** What every state of the list satisfies. */
  ghost predicate Sound(body: seq<Oper>, list: seq<int>) {
    && Distinct(list)
    && (forall r :: r in list ==> Loaded(body, r))
    && Ids(list) <= Written(body)
  }

  /** Adds the destination of op unless it is listed already. */
  function AddDest(ghost body: seq<Oper>, list: seq<int>, op: Oper): (grown: seq<int>)
    requires Sound(body, list) && op in body && op.dest.Register? && Loaded(body, op.dest.id)
    ensures Sound(body, grown)
    ensures forall r :: r in grown <==> r in list || r == op.dest.id
    ensures op.dest.id in list ==> grown == list
  {
    if op.dest.id in list then list else [op.dest.id] + list
  }

  // ----- the loads still to be marked, and the base register -----

  /** Loads of the body that carry none of the three marks. */
  ghost function Todo(body: seq<Oper>): set<Oper>
    reads body
  {
    set op | op in body && op.load && !op.Marked()
  }

  ghost predicate Chases(op: Oper, todo: set<Oper>, r: int) {
    op in todo && op.dest == op.src0 && IsReg(op.dest, r)
  }

  /** base belongs to the first op that replaces its own address register, or is -2. */
  ghost predicate FirstChased(ops: seq<Oper>, todo: set<Oper>, base: int) {
    if base == -2 then forall i, r :: 0 <= i < |ops| && Chases(ops[i], todo, r) ==> r == -2
    else exists k :: 0 <= k < |ops| && Chases(ops[k], todo, base)
                     && forall j, r :: 0 <= j < k && Chases(ops[j], todo, r) ==> r == -2
  }

  /** An unmarked load that replaces its own address register. */
  predicate SelfReplacing(ops: seq<Oper>, todo: set<Oper>, k: nat)
    requires k < |ops|
  {
    ops[k] in todo && ops[k].dest.Register? && ops[k].dest == ops[k].src0
  }

  /** The first base register, by positions; a register numbered -2 is not told from no register. */
  lemma FirstChasedIs(ops: seq<Oper>, todo: set<Oper>, base: int)
    ensures FirstChased(ops, todo, base) <==>
            if base == -2 then forall k :: 0 <= k < |ops| && SelfReplacing(ops, todo, k) ==> ops[k].dest.id == -2
            else exists k :: 0 <= k < |ops| && SelfReplacing(ops, todo, k) && ops[k].dest.id == base
                             && forall j :: 0 <= j < k && SelfReplacing(ops, todo, j) ==> ops[j].dest.id == -2
  {
    forall k | 0 <= k < |ops|
      ensures SelfReplacing(ops, todo, k) <==> exists r :: Chases(ops[k], todo, r)
      ensures SelfReplacing(ops, todo, k) ==> Chases(ops[k], todo, ops[k].dest.id)
      ensures forall r :: Chases(ops[k], todo, r) ==> r == ops[k].dest.id
    {
      assert SelfReplacing(ops, todo, k) ==> Chases(ops[k], todo, ops[k].dest.id);
    }
    if FirstChased(ops, todo, base) && base != -2 {
      var k :| 0 <= k < |ops| && Chases(ops[k], todo, base)
               && forall j, r :: 0 <= j < k && Chases(ops[j], todo, r) ==> r == -2;
      assert SelfReplacing(ops, todo, k);
    }
  }

  lemma NothingChased(todo: set<Oper>)
    ensures FirstChased([], todo, -2)
  {
  }

  lemma ChasedStep(ops: seq<Oper>, op: Oper, todo: set<Oper>, base: int)
    requires FirstChased(ops, todo, base)
    ensures FirstChased(ops + [op], todo,
                        if base == -2 && op in todo && op.dest.Register? && op.dest == op.src0
                        then op.src0.id else base)
  {
    var all := ops + [op];
    assert forall i :: 0 <= i < |ops| ==> all[i] == ops[i];
    if base == -2 {
      assert all[|ops|] == op;
    } else {
      var k :| 0 <= k < |ops| && Chases(ops[k], todo, base)
               && forall j, r :: 0 <= j < k && Chases(ops[j], todo, r) ==> r == -2;
      assert Chases(all[k], todo, base);
    }
  }

  /** First pass: load destinations, and the first unmarked load whose address register is its
      own destination. */
  method CollectLoads(body: seq<Oper>) returns (list: seq<int>, base: int)
    ensures Sound(body, list)
    ensures forall op :: op in body && op.load && op.dest.Register? ==> op.dest.id in list
    ensures FirstChased(body, Todo(body), base)
  {
    hide FirstChased, Loaded, Written;
    list, base := [], -2;
    NothingChased(Todo(body));
    ghost var todo := Todo(body);
    for i := 0 to |body|
      invariant Sound(body, list)
      invariant forall j :: 0 <= j < i && body[j].load && body[j].dest.Register? ==> body[j].dest.id in list
      invariant FirstChased(body[..i], todo, base)
    {
      var op := body[i];
      assert body[..i + 1] == body[..i] + [op];
      ChasedStep(body[..i], op, todo, base);
      if op.load {
        if op.dest.Register? {
          ChainStart(body, i);
          list := AddDest(body, list, op);
        }
        if !op.Marked() && base == -2 && op.dest.Register? && op.dest == op.src0 {
          base := op.src0.id;
        }
      }
    }
    assert body[..|body|] == body;
  }

  /** Second pass, one round: ops that read a listed register list their destination. */
  method CloseRound(body: seq<Oper>, list: seq<int>) returns (grown: seq<int>, change: bool)
    requires Sound(body, list)
    ensures Sound(body, grown) && Ids(list) <= Ids(grown)
    ensures change ==> Ids(list) < Ids(grown)
    ensures !change ==> grown == list && forall op, r :: op in body && Passes(op, r) && r in list ==> op.dest.id in list
  {
    hide Loaded, Written;
    grown, change := list, false;
    ghost var added := 0;
    for i := 0 to |body|
      invariant Sound(body, grown) && forall r :: r in list ==> r in grown
      invariant change ==> added in grown && added !in list
      invariant !change ==> grown == list
      invariant !change ==>
                  forall j, r :: 0 <= j < i && Passes(body[j], r) && r in list ==> body[j].dest.id in list
    {
      var op := body[i];
      if !op.store && op.dest.Register? {
        if op.src0.Register? && op.src0.id in grown {
          ChainStep(body, op.src0.id, i);
          if op.dest.id !in grown {
            grown, change, added := AddDest(body, grown, op), true, op.dest.id;
          }
        }
        if op.src1.Register? && op.src1.id in grown {
          ChainStep(body, op.src1.id, i);
          if op.dest.id !in grown {
            grown, change, added := AddDest(body, grown, op), true, op.dest.id;
          }
        }
      }
    }
    assert forall r :: r in Ids(list) ==> r in Ids(grown);
    assert change ==> added in Ids(grown) && added !in Ids(list);
  }

  /** The list of all registers that hold a loaded value in some iteration: the least set that
      holds the load destinations and is closed under the non-store ops. */
  method LoadedRegisters(body: seq<Oper>, first: seq<int>) returns (list: seq<int>)
    requires Sound(body, first)
    requires forall op :: op in body && op.load && op.dest.Register? ==> op.dest.id in first
    ensures forall r :: r in list <==> Loaded(body, r)
    ensures forall t :: Closed(body, t) ==> Ids(list) <= t
  {
    list := first;
    var change := true;
    while change
      invariant Sound(body, list) && Ids(first) <= Ids(list)
      invariant !change ==> forall op, r :: op in body && Passes(op, r) && r in list ==> op.dest.id in list
      decreases Written(body) - Ids(list), change
    {
      list, change := CloseRound(body, list);
    }
    ClosedIsLeast(body, Ids(list));
    assert forall r :: r in list <==> r in Ids(list);
  }

  // ----- the most used base register -----

  /** The load addresses memory by r plus a constant, and r is a loaded register. */
  predicate AddressedBy(op: Oper, list: seq<int>, r: int) {
    IsReg(op.src0, r) && op.src1.IntConstant? && r in list
  }

  ghost function Uses(ops: seq<Oper>, todo: set<Oper>, list: seq<int>, r: int): nat {
    if ops == [] then 0
    else
      var n := |ops| - 1;
      Uses(ops[..n], todo, list, r) + if ops[n] in todo && AddressedBy(ops[n], list, r) then 1 else 0
  }

  /** Position of the first unmarked load addressed by r, or the number of ops. */
  ghost function FirstUse(ops: seq<Oper>, todo: set<Oper>, list: seq<int>, r: int): (k: nat)
    ensures k <= |ops|
    ensures k < |ops| <==> Uses(ops, todo, list, r) > 0
  {
    if ops == [] then 0
    else
      var n := |ops| - 1;
      var k := FirstUse(ops[..n], todo, list, r);
      if k < n || (ops[n] in todo && AddressedBy(ops[n], list, r)) then k else n + 1
  }

  /** The positions of the unmarked loads that use r. */
  ghost function UsesOf(ops: seq<Oper>, todo: set<Oper>, list: seq<int>, r: int): set<int> {
    set k | 0 <= k < |ops| && ops[k] in todo && ops[k].src0.Register? && ops[k].src0.id == r
            && ops[k].src1.IntConstant? && r in list
  }

  lemma {:induction false} UsesIs(ops: seq<Oper>, todo: set<Oper>, list: seq<int>, r: int)
    ensures Uses(ops, todo, list, r) == |UsesOf(ops, todo, list, r)|
  {
    if ops != [] {
      var n := |ops| - 1;
      UsesIs(ops[..n], todo, list, r);
      var before := UsesOf(ops[..n], todo, list, r);
      assert n !in before;
      assert UsesOf(ops, todo, list, r)
          == before + if ops[n] in todo && AddressedBy(ops[n], list, r) then {n} else {};
    }
  }

  lemma {:induction false} FirstUseIs(ops: seq<Oper>, todo: set<Oper>, list: seq<int>, r: int)
    ensures var k := FirstUse(ops, todo, list, r);
      && (k < |ops| ==> ops[k] in todo && AddressedBy(ops[k], list, r))
      && forall j :: 0 <= j < k ==> !(ops[j] in todo && AddressedBy(ops[j], list, r))
  {
    hide Uses, AddressedBy;
    if ops != [] {
      FirstUseIs(ops[..|ops| - 1], todo, list, r);
    }
  }

  /** base has the most uses, at least two, and among equals the earliest first use; it is -2
      when no register has two. */
  ghost predicate MostUsed(ops: seq<Oper>, todo: set<Oper>, list: seq<int>, base: int) {
    || (base == -2 && forall r :: Uses(ops, todo, list, r) <= 1)
    || (&& Uses(ops, todo, list, base) > 1
        && forall r :: r != base ==>
             || Uses(ops, todo, list, r) < Uses(ops, todo, list, base)
             || (Uses(ops, todo, list, r) == Uses(ops, todo, list, base)
                 && FirstUse(ops, todo, list, base) < FirstUse(ops, todo, list, r)))
  }

  /** The table maps each used register to its number of uses, in order of first use. */
  ghost predicate Tabulates(keys: seq<int>, count: map<int, int>, ops: seq<Oper>, todo: set<Oper>, list: seq<int>) {
    && (forall i :: 0 <= i < |keys| ==> keys[i] in count)
    && (forall r :: r in count ==> r in keys)
    && (forall r :: r in count ==> count[r] == Uses(ops, todo, list, r) > 0)
    && (forall r :: r !in count ==> Uses(ops, todo, list, r) == 0)
    && (forall i, j :: 0 <= i < j < |keys| ==>
          FirstUse(ops, todo, list, keys[i]) < FirstUse(ops, todo, list, keys[j]))
  }

  lemma NoUses(todo: set<Oper>, list: seq<int>)
    ensures Tabulates([], map[], [], todo, list)
  {
  }

  lemma UseStep(ops: seq<Oper>, op: Oper, todo: set<Oper>, list: seq<int>, r: int)
    ensures Uses(ops + [op], todo, list, r)
            == Uses(ops, todo, list, r) + if op in todo && AddressedBy(op, list, r) then 1 else 0
    ensures Uses(ops, todo, list, r) > 0 ==>
              FirstUse(ops + [op], todo, list, r) == FirstUse(ops, todo, list, r) < |ops|
    ensures Uses(ops, todo, list, r) == 0 && op in todo && AddressedBy(op, list, r) ==>
              FirstUse(ops + [op], todo, list, r) == |ops|
  {
    assert (ops + [op])[..|ops|] == ops;
  }

  /** An op that uses no table register leaves the table as it is. */
  lemma TabulateSkip(keys: seq<int>, count: map<int, int>, ops: seq<Oper>, op: Oper, todo: set<Oper>, list: seq<int>)
    requires Tabulates(keys, count, ops, todo, list)
    requires !(op in todo && op.src0.Register? && AddressedBy(op, list, op.src0.id))
    ensures Tabulates(keys, count, ops + [op], todo, list)
  {
    hide Uses, FirstUse;
    var all := ops + [op];
    forall r
      ensures Uses(all, todo, list, r) == Uses(ops, todo, list, r)
      ensures r in count ==> FirstUse(all, todo, list, r) == FirstUse(ops, todo, list, r)
    {
      UseStep(ops, op, todo, list, r);
    }
  }

  lemma TabulateUse(keys: seq<int>, count: map<int, int>, ops: seq<Oper>, op: Oper, todo: set<Oper>, list: seq<int>)
    requires Tabulates(keys, count, ops, todo, list)
    requires op in todo && op.src0.Register? && AddressedBy(op, list, op.src0.id)
    ensures var r := op.src0.id;
            if r in count then Tabulates(keys, count[r := count[r] + 1], ops + [op], todo, list)
            else Tabulates(keys + [r], count[r := 1], ops + [op], todo, list)
  {
    hide Uses, FirstUse;
    var all, x := ops + [op], op.src0.id;
    forall r
      ensures Uses(all, todo, list, r) == Uses(ops, todo, list, r) + if r == x then 1 else 0
      ensures r in count ==> FirstUse(all, todo, list, r) == FirstUse(ops, todo, list, r) < |ops|
      ensures x !in count ==> FirstUse(all, todo, list, x) == |ops|
    {
      UseStep(ops, op, todo, list, r);
      UseStep(ops, op, todo, list, x);
    }
  }

  method CountUses(body: seq<Oper>, list: seq<int>) returns (keys: seq<int>, count: map<int, int>)
    ensures Tabulates(keys, count, body, Todo(body), list)
  {
    hide Uses, FirstUse;
    keys, count := [], map[];
    NoUses(Todo(body), list);
    ghost var todo := Todo(body);
    for i := 0 to |body|
      invariant Tabulates(keys, count, body[..i], todo, list)
    {
      var op := body[i];
      assert body[..i + 1] == body[..i] + [op];
      if op.load && !op.Marked() && op.src0.Register? && op.src1.IntConstant? && op.src0.id in list {
        TabulateUse(keys, count, body[..i], op, todo, list);
        var r := op.src0.id;
        if r in count {
          count := count[r := count[r] + 1];
        } else {
          keys, count := keys + [r], count[r := 1];
        }
      } else {
        TabulateSkip(keys, count, body[..i], op, todo, list);
      }
    }
    assert body[..|body|] == body;
  }

  method MostUsedBase(body: seq<Oper>, list: seq<int>) returns (base: int)
    ensures MostUsed(body, Todo(body), list, base)
  {
    hide Uses, FirstUse;
    var keys, count := CountUses(body, list);
    ghost var todo := Todo(body);
    var largest := 1;
    base := -2;
    ghost var at := -1;
    for i := 0 to |keys|
      invariant largest >= 1 && -1 <= at < i
      invariant forall j :: 0 <= j < i ==> count[keys[j]] <= largest
      invariant at == -1 ==> base == -2 && largest == 1
      invariant at >= 0 ==> keys[at] == base && count[base] == largest > 1
      invariant at >= 0 ==> forall j :: 0 <= j < at ==> count[keys[j]] < largest
    {
      if count[keys[i]] > largest {
        largest, base, at := count[keys[i]], keys[i], i;
      }
    }
    forall r
      ensures Uses(body, todo, list, r) <= largest
      ensures at >= 0 && r != base && Uses(body, todo, list, r) == largest ==>
                FirstUse(body, todo, list, base) < FirstUse(body, todo, list, r)
    {
      if r in count {
        var j :| 0 <= j < |keys| && keys[j] == r;
        assert count[keys[j]] <= largest;
      }
    }
  }

  // ----- marking -----

  ghost predicate ReadsLoaded(body: seq<Oper>, op: Oper) {
    exists r :: Reads(op, r) && Loaded(body, r)
  }

  /** The mark an unmarked load deserves. */
  ghost function MarkFor(body: seq<Oper>, base: int, op: Oper): (m: Attr)
    ensures m == SetupImpliedReg || m == DontPredict || m == Predict
  {
    if IsReg(op.src0, base) && op.src1.IntConstant? then SetupImpliedReg
    else if ReadsLoaded(body, op) then DontPredict
    else Predict
  }

  /** How many of the ops, each an unmarked load, deserve mark m. */
  ghost function Tally(ops: seq<Oper>, todo: set<Oper>, body: seq<Oper>, base: int, m: Attr): nat {
    if ops == [] then 0
    else
      var n := |ops| - 1;
      Tally(ops[..n], todo, body, base, m) + if ops[n] in todo && MarkFor(body, base, ops[n]) == m then 1 else 0
  }

  predicate ReadsBase(op: Oper, base: int) {
    op.src0.Register? && op.src0.id == base && op.src1.IntConstant?
  }

  /** The load gets one mark: the base register plus a constant is set up early; of the other loads,
      those that read no register a load can reach are predicted. */
  ghost predicate MarkedRight(body: seq<Oper>, base: int, op: Oper, before: seq<Attr>, after: seq<Attr>) {
    && |after| == |before| + 1 && after[..|before|] == before
    && var m := after[|before|];
    && (m == SetupImpliedReg <==> ReadsBase(op, base))
    && (m == Predict <==> !ReadsBase(op, base) && forall r :: Reads(op, r) ==> !Loaded(body, r))
    && (m == DontPredict <==> !ReadsBase(op, base) && exists r :: Reads(op, r) && Loaded(body, r))
  }

  ghost function EarlyLoads(todo: set<Oper>, base: int): set<Oper> {
    set op | op in todo && ReadsBase(op, base)
  }

  ghost function PredictedLoads(todo: set<Oper>, body: seq<Oper>, base: int): set<Oper> {
    set op | op in todo && !ReadsBase(op, base) && forall r :: Reads(op, r) ==> !Loaded(body, r)
  }

  ghost function DependentLoads(todo: set<Oper>, body: seq<Oper>, base: int): set<Oper> {
    set op | op in todo && !ReadsBase(op, base) && exists r :: Reads(op, r) && Loaded(body, r)
  }

  lemma MarkIsRight(body: seq<Oper>, base: int, op: Oper, before: seq<Attr>)
    ensures MarkedRight(body, base, op, before, before + [MarkFor(body, base, op)])
  {
    hide Loaded;
  }

  /** The ops that are unmarked loads and deserve mark m. */
  ghost function Chosen(ops: seq<Oper>, todo: set<Oper>, body: seq<Oper>, base: int, m: Attr): set<Oper> {
    set op | op in ops && op in todo && MarkFor(body, base, op) == m
  }

  lemma ChosenSnoc(ops: seq<Oper>, op: Oper, todo: set<Oper>, body: seq<Oper>, base: int, m: Attr)
    ensures Chosen(ops + [op], todo, body, base, m) ==
            Chosen(ops, todo, body, base, m) + if op in todo && MarkFor(body, base, op) == m then {op} else {}
    ensures op !in ops ==> op !in Chosen(ops, todo, body, base, m)
  {
    hide MarkFor;
  }

  /** Over distinct ops a tally is the number of loads with that mark. */
  lemma {:induction false} TallyCounts(ops: seq<Oper>, todo: set<Oper>, body: seq<Oper>, base: int, m: Attr)
    requires Distinct(ops)
    ensures Tally(ops, todo, body, base, m) == |Chosen(ops, todo, body, base, m)|
  {
    hide MarkFor, Chosen;
    if ops == [] {
      NoneChosen(todo, body, base, m);
    } else {
      var n := |ops| - 1;
      TallyCounts(ops[..n], todo, body, base, m);
      ChosenSnoc(ops[..n], ops[n], todo, body, base, m);
      assert ops == ops[..n] + [ops[n]];
      assert ops[n] !in ops[..n];
    }
  }

  lemma NoneChosen(todo: set<Oper>, body: seq<Oper>, base: int, m: Attr)
    ensures Chosen([], todo, body, base, m) == {}
  {
  }

  lemma ChosenAre(body: seq<Oper>, todo: set<Oper>, base: int)
    requires forall op :: op in todo ==> op in body
    ensures Chosen(body, todo, body, base, SetupImpliedReg) == EarlyLoads(todo, base)
    ensures Chosen(body, todo, body, base, Predict) == PredictedLoads(todo, body, base)
    ensures Chosen(body, todo, body, base, DontPredict) == DependentLoads(todo, body, base)
  {
    hide Loaded;
  }

  /** The three tallies add up to the number of unmarked loads. */
  lemma TalliesAddUp(ops: seq<Oper>, todo: set<Oper>, body: seq<Oper>, base: int)
    requires Distinct(ops)
    ensures Tally(ops, todo, body, base, Predict) + Tally(ops, todo, body, base, SetupImpliedReg)
            + Tally(ops, todo, body, base, DontPredict) == |set op | op in ops && op in todo|
  {
    hide MarkFor, Tally, Chosen;
    TallyCounts(ops, todo, body, base, Predict);
    TallyCounts(ops, todo, body, base, SetupImpliedReg);
    TallyCounts(ops, todo, body, base, DontPredict);
    ChosenParts(ops, todo, body, base);
    ThreeParts(Chosen(ops, todo, body, base, Predict), Chosen(ops, todo, body, base, SetupImpliedReg),
               Chosen(ops, todo, body, base, DontPredict));
  }

  lemma ChosenParts(ops: seq<Oper>, todo: set<Oper>, body: seq<Oper>, base: int)
    ensures var p, e, d := Chosen(ops, todo, body, base, Predict), Chosen(ops, todo, body, base, SetupImpliedReg),
                           Chosen(ops, todo, body, base, DontPredict);
      p !! e && p !! d && e !! d && p + e + d == set op | op in ops && op in todo
  {
    hide MarkFor;
    forall op
      ensures (|| op in Chosen(ops, todo, body, base, Predict) || op in Chosen(ops, todo, body, base, SetupImpliedReg)
               || op in Chosen(ops, todo, body, base, DontPredict)) <==> op in ops && op in todo
    {
    }
  }

  lemma ThreeParts(a: set<Oper>, b: set<Oper>, c: set<Oper>)
    requires a !! b && a !! c && b !! c
    ensures |a + b + c| == |a| + |b| + |c|
  {
  }

  /** The three counters the caller passes in. */
  class Counters {
    var pred: int
    var early: int
    var dp: int

    ghost function Sum(): int
      reads this
    {
      pred + early + dp
    }

    /** Marks one unmarked load. */
    method MarkLoad(body: seq<Oper>, list: seq<int>, base: int, op: Oper) returns (ghost m: Attr)
      requires forall r :: r in list <==> Loaded(body, r)
      modifies this, op
      ensures m == MarkFor(body, base, op) && op.attrs == old(op.attrs) + [m]
      ensures MarkedRight(body, base, op, old(op.attrs), op.attrs)
      ensures pred == old(pred) + if m == Predict then 1 else 0
      ensures early == old(early) + if m == SetupImpliedReg then 1 else 0
      ensures dp == old(dp) + if m == DontPredict then 1 else 0
    {
      hide Loaded, MarkedRight;
      assert op.src0.Register? ==> Reads(op, op.src0.id);
      assert op.src1.Register? ==> Reads(op, op.src1.id);
      m := MarkFor(body, base, op);
      MarkIsRight(body, base, op, op.attrs);
      if op.src0.Register? && op.src1.IntConstant? {
        if op.src0.id == base {
          op.attrs := op.attrs + [SetupImpliedReg];
          early := early + 1;
        } else if op.src0.id in list {
          op.attrs := op.attrs + [DontPredict];
          dp := dp + 1;
        } else {
          op.attrs := op.attrs + [Predict];
          pred := pred + 1;
        }
      } else if (op.src0.Register? && op.src0.id in list) || (op.src1.Register? && op.src1.id in list) {
        op.attrs := op.attrs + [DontPredict];
        dp := dp + 1;
      } else {
        op.attrs := op.attrs + [Predict];
        pred := pred + 1;
      }
    }

    /** Third pass: marks every unmarked load. */
    method MarkLoads(body: seq<Oper>, list: seq<int>, base: int)
      requires Distinct(body)
      requires forall r :: r in list <==> Loaded(body, r)
      modifies this, body
      ensures forall op :: op in body ==>
                op.attrs == old(op.attrs) + if op in old(Todo(body)) then [MarkFor(body, base, op)] else []
      ensures pred == old(pred) + Tally(body, old(Todo(body)), body, base, Predict)
      ensures early == old(early) + Tally(body, old(Todo(body)), body, base, SetupImpliedReg)
      ensures dp == old(dp) + Tally(body, old(Todo(body)), body, base, DontPredict)
    {
      hide MarkFor, Loaded;
      ghost var todo := Todo(body);
      for i := 0 to |body|
        invariant forall j {:trigger body[j]} :: 0 <= j < i ==>
                    body[j].attrs == old(body[j].attrs) + if body[j] in todo then [MarkFor(body, base, body[j])] else []
        invariant forall j {:trigger body[j]} :: i <= j < |body| ==> body[j].attrs == old(body[j].attrs)
        invariant pred == old(pred) + Tally(body[..i], todo, body, base, Predict)
        invariant early == old(early) + Tally(body[..i], todo, body, base, SetupImpliedReg)
        invariant dp == old(dp) + Tally(body[..i], todo, body, base, DontPredict)
      {
        var op := body[i];
        assert body[..i + 1][..i] == body[..i];
        if op.load && !op.Marked() {
          ghost var _ := MarkLoad(body, list, base, op);
        }
      }
      assert body[..|body|] == body;
    }

    /** The whole analysis of one loop. */
    method CheckLoop(body: seq<Oper>) returns (base: int)
      requires Distinct(body)
      modifies this, body
      ensures ChosenBase(body, old(Todo(body)), base)
      ensures forall op :: op in body ==>
                op.attrs == old(op.attrs) + if op in old(Todo(body)) then [MarkFor(body, base, op)] else []
      ensures forall op :: op in old(Todo(body)) ==> MarkedRight(body, base, op, old(op.attrs), op.attrs)
      ensures Todo(body) == {}
      ensures pred == old(pred) + |PredictedLoads(old(Todo(body)), body, base)|
      ensures early == old(early) + |EarlyLoads(old(Todo(body)), base)|
      ensures dp == old(dp) + |DependentLoads(old(Todo(body)), body, base)|
      ensures Sum() == old(Sum()) + |old(Todo(body))|
    {
      hide FirstChased, MostUsed, Loaded, MarkFor, Tally, MarkedRight, Chosen;
      hide PredictedLoads, EarlyLoads, DependentLoads;
      var first;
      first, base := CollectLoads(body);
      var list := LoadedRegisters(body, first);
      if base == -2 {
        base := MostUsedBase(body, list);
      }
      ghost var todo := Todo(body);
      MarkLoads(body, list, base);
      TalliesAddUp(body, todo, body, base);
      assert (set op | op in body && op in todo) == todo;
      ChosenAre(body, todo, base);
      TallyCounts(body, todo, body, base, Predict);
      TallyCounts(body, todo, body, base, SetupImpliedReg);
      TallyCounts(body, todo, body, base, DontPredict);
      forall op | op in todo
        ensures MarkedRight(body, base, op, old(op.attrs), op.attrs)
      {
        MarkIsRight(body, base, op, old(op.attrs));
      }
    }
  }

  ghost predicate ChosenBase(body: seq<Oper>, todo: set<Oper>, base: int) {
    || (base != -2 && FirstChased(body, todo, base))
    || (FirstChased(body, todo, -2)
        && exists list :: (forall r :: r in list <==> Loaded(body, r)) && MostUsed(body, todo, list, base))
  }
}
