/** Expressions in the binary format.  A label equal to the last one written is left out;
    writer and reader each remember a last label, and the two must stay in step. */
module BinaryExpr {
  import opened BinaryCodec

  /** Node kinds; floating-point constants are carried as their printed text. */
  datatype Kind =
    | Int(i: int) | Float(text: seq<Byte>) | Double(text: seq<Byte>)
    | Label(name: seq<Byte>) | Str(text: seq<Byte>)
    | Add | Sub | Mul | Div | Neg | Com

  /** A possibly missing expression node with its two children and its list successor. */
  datatype Expr = Nil | Node(kind: Kind, a: Expr, b: Expr, next: Expr)

  function Tag(k: Kind): (t: int)
    ensures 0 < t < 128
  {
    match k
    case Int(_) => 'i' as int
    case Float(_) => 'f' as int
    case Double(_) => 'd' as int
    case Label(_) => 'l' as int
    case Str(_) => 's' as int
    case Add => 'A' as int
    case Sub => 'S' as int
    case Mul => 'M' as int
    case Div => 'D' as int
    case Neg => 'N' as int
    case Com => 'C' as int
  }

  function Arity(k: Kind): nat {
    match k
    case Add => 2
    case Sub => 2
    case Mul => 2
    case Div => 2
    case Neg => 1
    case Com => 1
    case _ => 0
  }

  /** Constants the format can carry: integers above the minimum, non-empty 7-bit texts. */
  predicate Representable(k: Kind) {
    match k
    case Int(i) => -MAX_INT <= i <= MAX_INT
    case Label(l) => IsText(l)
    case Float(t) => IsText(t)
    case Double(t) => IsText(t)
    case Str(t) => IsText(t)
    case _ => true
  }

  /** The writer negates integers, so the minimum int is out of its reach. */
  predicate IntsInRange(e: Expr) {
    e.Node? ==> (e.kind.Int? ==> -MAX_INT <= e.kind.i <= MAX_INT) && IntsInRange(e.a) && IntsInRange(e.b)
  }

  /** What the consistency check accepts, for a single tree of representable constants. */
  predicate WellFormed(e: Expr) {
    && e.Node? && e.next.Nil? && Representable(e.kind)
    && (if Arity(e.kind) >= 1 then WellFormed(e.a) else e.a.Nil?)
    && (if Arity(e.kind) == 2 then WellFormed(e.b) else e.b.Nil?)
  }

  /** The same, but a label may be empty. */
  predicate Printable(e: Expr) {
    && e.Node? && e.next.Nil? && (e.kind == Label([]) || Representable(e.kind))
    && (if Arity(e.kind) >= 1 then Printable(e.a) else e.a.Nil?)
    && (if Arity(e.kind) == 2 then Printable(e.b) else e.b.Nil?)
  }

  // ----- specification of the writer -----

  function Payload(k: Kind, last: seq<Byte>): seq<Byte> {
    match k
    case Int(i) => EncodeInt(i)
    case Label(l) => if l == last then [] else EncodeString(l)
    case Float(t) => EncodeString(t)
    case Double(t) => EncodeString(t)
    case Str(t) => EncodeString(t)
    case _ => []
  }

  /** The last label after a node of kind k. */
  function Remember(k: Kind, last: seq<Byte>): seq<Byte> {
    if k.Label? then k.name else last
  }

  function EncodeExpr(e: Expr, last: seq<Byte>): (r: (seq<Byte>, seq<Byte>)) {
    if e.Nil? then ([], last)
    else
      var last1 := Remember(e.kind, last);
      var a := if Arity(e.kind) >= 1 then EncodeExpr(e.a, last1) else ([], last1);
      var b := if Arity(e.kind) == 2 then EncodeExpr(e.b, a.1) else ([], a.1);
      ([DELIMIT + Tag(e.kind)] + (Payload(e.kind, last) + (a.0 + (b.0 + [DELIMIT]))), b.1)
  }

  // ----- specification of the reader -----

  datatype Parse<+T> = Bad | Ok(value: T, last: seq<Byte>, rest: seq<Byte>)

  function WithText(r: Read<seq<Byte>>, last: seq<Byte>, make: seq<Byte> -> Kind): Parse<Kind> {
    match r
    case Fail => Bad
    case Got(s, rest) => Ok(make(s), last, rest)
  }

  function DecodeKind(tag: int, bs: seq<Byte>, last: seq<Byte>): (r: Parse<Kind>)
    ensures r.Ok? ==> |r.rest| <= |bs|
  {
    if tag == 'i' as int then
      match DecodeInt(bs)
      case Fail => Bad
      case Got(i, rest) => Ok(Int(i), last, rest)
    else if tag == 'f' as int then WithText(DecodeString(bs), last, s => Float(s))
    else if tag == 'd' as int then WithText(DecodeString(bs), last, s => Double(s))
    else if tag == 'l' as int then
      if bs != [] && bs[0] == DELIMIT then Ok(Label(last), last, bs)
      else
        match DecodeString(bs)
        case Fail => Bad
        case Got(s, rest) => Ok(Label(s), s, rest)
    else if tag == 's' as int then WithText(DecodeString(bs), last, s => Str(s))
    else if tag == 'A' as int then Ok(Add, last, bs)
    else if tag == 'S' as int then Ok(Sub, last, bs)
    else if tag == 'M' as int then Ok(Mul, last, bs)
    else if tag == 'D' as int then Ok(Div, last, bs)
    else if tag == 'N' as int then Ok(Neg, last, bs)
    else if tag == 'C' as int then Ok(Com, last, bs)
    else Bad
  }

  function DecodeExpr(bs: seq<Byte>, last: seq<Byte>): (r: Parse<Expr>)
    ensures r.Ok? ==> |r.rest| <= |bs|
    decreases |bs|
  {
    if bs == [] then Bad
    else if bs[0] == DELIMIT then Ok(Nil, last, bs)
    else
      match DecodeKind(bs[0] % DELIMIT, bs[1..], last)
      case Bad => Bad
      case Ok(k, last1, r1) =>
        var a := if Arity(k) >= 1 then DecodeExpr(r1, last1) else Ok(Nil, last1, r1);
        if a.Bad? then Bad else
        var b := if Arity(k) == 2 then DecodeExpr(a.rest, a.last) else Ok(Nil, a.last, a.rest);
        if b.Bad? then Bad else
        var n := DecodeExpr(b.rest, b.last);
        if n.Bad? || n.rest == [] || n.rest[0] != DELIMIT then Bad
        else Ok(Node(k, a.value, b.value, n.value), n.last, n.rest[1..])
  }

  // ----- what comes back, whatever the two memories hold -----

  /** No text is written for this label by a writer that remembers w. */
  predicate Silent(k: Kind, w: seq<Byte>) {
    k.Label? && (k.name == w || k.name == [])
  }

  function RereadKind(k: Kind, w: seq<Byte>, r: seq<Byte>): Kind {
    if Silent(k, w) then Label(r) else k
  }

  /** The tree, and the memory, of a reader that remembers r, from a tree written with memory w. */
  function Reread(e: Expr, w: seq<Byte>, r: seq<Byte>): (Expr, seq<Byte>) {
    if e.Nil? then (Nil, r)
    else
      var k := RereadKind(e.kind, w, r);
      var w1, r1 := Remember(e.kind, w), Remember(k, r);
      var a := if Arity(k) >= 1 then Reread(e.a, w1, r1) else (Nil, r1);
      var w2 := if Arity(k) >= 1 then EncodeExpr(e.a, w1).1 else w1;
      var b := if Arity(k) == 2 then Reread(e.b, w2, a.1) else (Nil, a.1);
      (Node(k, a.0, b.0, Nil), b.1)
  }

  lemma SameTag(k: Kind, w: seq<Byte>, r: seq<Byte>)
    ensures Tag(RereadKind(k, w, r)) == Tag(k) && Arity(RereadKind(k, w, r)) == Arity(k)
    ensures k.Label? ==> Arity(k) == 0
  {
  }

  lemma KindReread(k: Kind, w: seq<Byte>, r: seq<Byte>, rest: seq<Byte>)
    requires k == Label([]) || Representable(k)
    requires rest != [] && (k.Label? ==> rest[0] == DELIMIT)
    ensures var k' := RereadKind(k, w, r);
      DecodeKind(Tag(k), Payload(k, w) + rest, r) == Ok(k', Remember(k', r), rest)
  {
    hide DecodeKind, Payload;
    match k
    case Int(i) => IntKindReread(i, w, r, rest);
    case Float(t) => TextKindReread(k, t, w, r, rest);
    case Double(t) => TextKindReread(k, t, w, r, rest);
    case Str(t) => TextKindReread(k, t, w, r, rest);
    case Label(l) => LabelReread(l, w, r, rest);
    case _ => OperatorReread(k, w, r, rest);
  }

  lemma IntKindReread(i: int, w: seq<Byte>, r: seq<Byte>, rest: seq<Byte>)
    requires -MAX_INT <= i <= MAX_INT
    ensures DecodeKind(Tag(Int(i)), Payload(Int(i), w) + rest, r) == Ok(Int(i), r, rest)
  {
    hide EncodeInt, DecodeInt, DecodeString;
    IntRoundTrip(i, rest);
  }

  lemma TextKindReread(k: Kind, t: seq<Byte>, w: seq<Byte>, r: seq<Byte>, rest: seq<Byte>)
    requires IsText(t) && k in {Float(t), Double(t), Str(t)}
    ensures DecodeKind(Tag(k), Payload(k, w) + rest, r) == Ok(k, r, rest)
  {
    hide EncodeString, DecodeString, DecodeInt, IsText;
    StringRoundTrip(t, rest);
  }

  lemma LabelReread(l: seq<Byte>, w: seq<Byte>, r: seq<Byte>, rest: seq<Byte>)
    requires (l == [] || IsText(l)) && rest != [] && rest[0] == DELIMIT
    ensures var k := RereadKind(Label(l), w, r);
      DecodeKind(Tag(Label(l)), Payload(Label(l), w) + rest, r) == Ok(k, k.name, rest)
  {
    hide DecodeString, DecodeInt, IsText;
    if l == w || l == [] {
      assert Payload(Label(l), w) == [] && [] + rest == rest;
    } else {
      StringRoundTrip(l, rest);
      TextStart(l, rest);
    }
  }

  lemma OperatorReread(k: Kind, w: seq<Byte>, r: seq<Byte>, rest: seq<Byte>)
    requires Arity(k) > 0
    ensures DecodeKind(Tag(k), Payload(k, w) + rest, r) == Ok(k, r, rest)
  {
  }

  /** A written text never looks like a bare delimiter. */
  lemma TextStart(s: seq<Byte>, rest: seq<Byte>)
    requires IsText(s)
    ensures EncodeString(s) + rest != [] && (EncodeString(s) + rest)[0] != DELIMIT
  {
  }

  /** The reader on a node whose parts are known. */
  lemma DecodeNode(bs: seq<Byte>, last: seq<Byte>, k: Kind, last1: seq<Byte>, r1: seq<Byte>,
                   a: Parse<Expr>, b: Parse<Expr>, rest: seq<Byte>)
    requires bs != [] && bs[0] != DELIMIT
    requires DecodeKind(bs[0] % DELIMIT, bs[1..], last) == Ok(k, last1, r1)
    requires a.Ok? && a == if Arity(k) >= 1 then DecodeExpr(r1, last1) else Ok(Nil, last1, r1)
    requires b.Ok? && b == if Arity(k) == 2 then DecodeExpr(a.rest, a.last) else Ok(Nil, a.last, a.rest)
    requires b.rest == [DELIMIT] + rest
    ensures DecodeExpr(bs, last) == Ok(Node(k, a.value, b.value, Nil), b.last, rest)
  {
  }

  /** For all memories: the reader builds the reread tree and consumes exactly the written bytes. */
  lemma {:induction false} ExprReread(e: Expr, w: seq<Byte>, r: seq<Byte>, rest: seq<Byte>)
    requires Printable(e)
    ensures var x := Reread(e, w, r);
      DecodeExpr(EncodeExpr(e, w).0 + rest, r) == Ok(x.0, x.1, rest)
    decreases e
  {
    hide EncodeExpr, DecodeExpr, DecodeKind, Payload, Representable, Remember, Reread, RereadKind, Arity, Tag;
    var k := RereadKind(e.kind, w, r);
    SameTag(e.kind, w, r);
    var w1, r1 := Remember(e.kind, w), Remember(k, r);
    var a: (seq<Byte>, seq<Byte>) := if Arity(k) >= 1 then EncodeExpr(e.a, w1) else ([], w1);
    var b: (seq<Byte>, seq<Byte>) := if Arity(k) == 2 then EncodeExpr(e.b, a.1) else ([], a.1);
    var xa: (Expr, seq<Byte>) := if Arity(k) >= 1 then Reread(e.a, w1, r1) else (Nil, r1);
    var xb: (Expr, seq<Byte>) := if Arity(k) == 2 then Reread(e.b, a.1, xa.1) else (Nil, xa.1);
    var endBytes: seq<Byte> := [DELIMIT] + rest;
    var afterA: seq<Byte> := b.0 + endBytes;
    var afterKind: seq<Byte> := a.0 + afterA;
    var bs: seq<Byte> := EncodeExpr(e, w).0 + rest;
    EncodeNode(e, w);
    RereadNode(e, w, r);
    NodeBytes(DELIMIT + Tag(k), Payload(e.kind, w), a.0, b.0, rest);
    KindReread(e.kind, w, r, afterKind);
    if Arity(k) >= 1 {
      ExprReread(e.a, w1, r1, afterA);
    }
    if Arity(k) == 2 {
      ExprReread(e.b, a.1, xa.1, endBytes);
    }
    DecodeNode(bs, r, k, r1, afterKind, Ok(xa.0, xa.1, afterA), Ok(xb.0, xb.1, endBytes), rest);
  }

  lemma EncodeNode(e: Expr, last: seq<Byte>)
    requires e.Node?
    ensures var last1 := Remember(e.kind, last);
      var a: (seq<Byte>, seq<Byte>) := if Arity(e.kind) >= 1 then EncodeExpr(e.a, last1) else ([], last1);
      var b: (seq<Byte>, seq<Byte>) := if Arity(e.kind) == 2 then EncodeExpr(e.b, a.1) else ([], a.1);
      EncodeExpr(e, last) == ([DELIMIT + Tag(e.kind)] + (Payload(e.kind, last) + (a.0 + (b.0 + [DELIMIT]))), b.1)
  {
    hide Payload, Arity, Remember;
  }

  lemma NodeBytes(tag: Byte, p: seq<Byte>, a: seq<Byte>, b: seq<Byte>, rest: seq<Byte>)
    ensures ([tag] + (p + (a + (b + [DELIMIT]))) + rest)[1..] == p + (a + (b + ([DELIMIT] + rest)))
    ensures a == [] ==> a + (b + ([DELIMIT] + rest)) == b + ([DELIMIT] + rest)
    ensures b == [] ==> b + ([DELIMIT] + rest) == [DELIMIT] + rest
  {
  }

  // ----- sequences of expressions -----

  function EncodeExprs(es: seq<Expr>, last: seq<Byte>): (r: (seq<Byte>, seq<Byte>)) {
    if es == [] then ([], last)
    else
      var first := EncodeExpr(es[0], last);
      var others := EncodeExprs(es[1..], first.1);
      (first.0 + others.0, others.1)
  }

  function DecodeExprs(n: nat, bs: seq<Byte>, last: seq<Byte>): Parse<seq<Expr>> {
    if n == 0 then Ok([], last, bs)
    else
      match DecodeExpr(bs, last)
      case Bad => Bad
      case Ok(e, last1, r1) =>
        match DecodeExprs(n - 1, r1, last1)
        case Bad => Bad
        case Ok(es, last2, r2) => Ok([e] + es, last2, r2)
  }

  lemma DecodeExprsCons(n: nat, bs: seq<Byte>, last: seq<Byte>, first: Parse<Expr>, others: Parse<seq<Expr>>)
    requires first.Ok? && DecodeExpr(bs, last) == first
    requires others.Ok? && DecodeExprs(n, first.rest, first.last) == others
    ensures DecodeExprs(n + 1, bs, last) == Ok([first.value] + others.value, others.last, others.rest)
  {
  }

  function RereadAll(es: seq<Expr>, w: seq<Byte>, r: seq<Byte>): (seq<Expr>, seq<Byte>) {
    if es == [] then ([], r)
    else
      var first := Reread(es[0], w, r);
      var others := RereadAll(es[1..], EncodeExpr(es[0], w).1, first.1);
      ([first.0] + others.0, others.1)
  }

  lemma {:induction false} ExprsReread(es: seq<Expr>, w: seq<Byte>, r: seq<Byte>, rest: seq<Byte>)
    requires forall e :: e in es ==> Printable(e)
    ensures var x := RereadAll(es, w, r);
      DecodeExprs(|es|, EncodeExprs(es, w).0 + rest, r) == Ok(x.0, x.1, rest)
    decreases |es|
  {
    hide EncodeExpr, Reread, Printable;
    if es == [] {
      assert [] + rest == rest;
    } else {
      var e, tail := es[0], es[1..];
      assert e in es && es == [e] + tail;
      var first, x := EncodeExpr(e, w), Reread(e, w, r);
      var others := EncodeExprs(tail, first.1);
      var xs := RereadAll(tail, first.1, x.1);
      assert first.0 + others.0 + rest == first.0 + (others.0 + rest);
      ExprReread(e, w, r, others.0 + rest);
      ExprsReread(tail, first.1, x.1, rest);
      DecodeExprsCons(|tail|, first.0 + (others.0 + rest), r, Ok(x.0, x.1, others.0 + rest), Ok(xs.0, xs.1, rest));
    }
  }

  // ----- when the same trees come back -----

  /** The labels of a tree in the order they are printed. */
  function Labels(e: Expr): seq<seq<Byte>> {
    if e.Nil? then []
    else
      (if e.kind.Label? then [e.kind.name] else [])
      + (if Arity(e.kind) >= 1 then Labels(e.a) else [])
      + (if Arity(e.kind) == 2 then Labels(e.b) else [])
  }

  function AllLabels(es: seq<Expr>): seq<seq<Byte>> {
    if es == [] then [] else Labels(es[0]) + AllLabels(es[1..])
  }

  /** No empty label follows a non-empty one, or a non-empty memory. */
  ghost predicate Kept(labels: seq<seq<Byte>>, last: seq<Byte>) {
    forall j :: 0 <= j < |labels| && labels[j] == [] ==> last == [] && forall i :: 0 <= i < j ==> labels[i] == []
  }

  function MemoryAfter(labels: seq<seq<Byte>>, last: seq<Byte>): seq<Byte> {
    if labels == [] then last else labels[|labels| - 1]
  }

  lemma KeptConcat(xs: seq<seq<Byte>>, ys: seq<seq<Byte>>, last: seq<Byte>)
    ensures Kept(xs + ys, last) <==> Kept(xs, last) && Kept(ys, MemoryAfter(xs, last))
    ensures MemoryAfter(xs + ys, last) == MemoryAfter(ys, MemoryAfter(xs, last))
  {
    var all := xs + ys;
    assert forall i :: 0 <= i < |xs| ==> all[i] == xs[i];
    assert forall i :: 0 <= i < |ys| ==> all[|xs| + i] == ys[i];
    if Kept(all, last) {
      forall j | 0 <= j < |ys| && ys[j] == []
        ensures MemoryAfter(xs, last) == [] && forall i :: 0 <= i < j ==> ys[i] == []
      {
        assert all[|xs| + j] == [];
        forall i | 0 <= i < j
          ensures ys[i] == []
        {
          assert all[|xs| + i] == [];
        }
      }
    }
  }

  /** From equal memories a tree is reread as itself iff its labels are kept, and then the
      memories are equal again. */
  lemma {:induction false} RereadIsSame(e: Expr, last: seq<Byte>)
    requires Printable(e)
    ensures EncodeExpr(e, last).1 == MemoryAfter(Labels(e), last)
    ensures Reread(e, last, last).0 == e <==> Kept(Labels(e), last)
    ensures Kept(Labels(e), last) ==> Reread(e, last, last).1 == MemoryAfter(Labels(e), last)
    decreases e
  {
    hide Kept, EncodeExpr, Reread, Labels, MemoryAfter, Printable, Payload;
    LabelsNode(e);
    EncodeNode(e, last);
    RereadNode(e, last, last);
    NoLabels(last);
    if e.kind.Label? {
      OneLabel(e.kind.name, last);
    } else if Arity(e.kind) >= 1 {
      RereadIsSame(e.a, last);
      var mid := MemoryAfter(Labels(e.a), last);
      if Arity(e.kind) == 2 {
        RereadIsSame(e.b, mid);
        KeptConcat(Labels(e.a), Labels(e.b), last);
      }
    }
  }

  lemma LabelsNode(e: Expr)
    requires Printable(e)
    ensures e == Node(e.kind, e.a, e.b, Nil)
    ensures if Arity(e.kind) >= 1 then Printable(e.a) else e.a == Nil
    ensures if Arity(e.kind) == 2 then Printable(e.b) else e.b == Nil
    ensures Labels(e) ==
            if Arity(e.kind) == 2 then Labels(e.a) + Labels(e.b)
            else if Arity(e.kind) == 1 then Labels(e.a)
            else if e.kind.Label? then [e.kind.name] else []
  {
    hide Representable, Arity;
    ArityRange(e.kind);
    var own: seq<seq<Byte>> := if e.kind.Label? then [e.kind.name] else [];
    var a := if Arity(e.kind) >= 1 then Labels(e.a) else [];
    var b := if Arity(e.kind) == 2 then Labels(e.b) else [];
    assert Labels(e) == own + a + b;
    assert own + [] == own && [] + a == a && a + [] == a && own + [] + [] == own;
  }

  lemma ArityRange(k: Kind)
    ensures Arity(k) <= 2 && (k.Label? ==> Arity(k) == 0)
  {
  }

  lemma RereadNode(e: Expr, w: seq<Byte>, r: seq<Byte>)
    requires e.Node?
    ensures var k := RereadKind(e.kind, w, r);
      var w1, r1 := Remember(e.kind, w), Remember(k, r);
      var a: (Expr, seq<Byte>) := if Arity(e.kind) >= 1 then Reread(e.a, w1, r1) else (Nil, r1);
      var w2: seq<Byte> := if Arity(e.kind) >= 1 then EncodeExpr(e.a, w1).1 else w1;
      var b: (Expr, seq<Byte>) := if Arity(e.kind) == 2 then Reread(e.b, w2, a.1) else (Nil, a.1);
      Reread(e, w, r) == (Node(k, a.0, b.0, Nil), b.1)
  {
    hide EncodeExpr, Remember;
  }

  lemma NoLabels(last: seq<Byte>)
    ensures Kept([], last) && MemoryAfter([], last) == last
  {
  }

  lemma OneLabel(l: seq<Byte>, last: seq<Byte>)
    ensures Kept([l], last) <==> (l != [] || last == [])
    ensures MemoryAfter([l], last) == l
  {
    assert [l][0] == l;
  }

  lemma {:induction false} RereadAllIsSame(es: seq<Expr>, last: seq<Byte>)
    requires forall e :: e in es ==> Printable(e)
    ensures EncodeExprs(es, last).1 == MemoryAfter(AllLabels(es), last)
    ensures RereadAll(es, last, last).0 == es <==> Kept(AllLabels(es), last)
    ensures Kept(AllLabels(es), last) ==> RereadAll(es, last, last).1 == MemoryAfter(AllLabels(es), last)
  {
    hide Kept, MemoryAfter, Reread, EncodeExpr, Labels, Printable;
    NoLabels(last);
    if es != [] {
      var e, tail := es[0], es[1..];
      assert es == [e] + tail;
      RereadIsSame(e, last);
      var mid := MemoryAfter(Labels(e), last);
      RereadAllIsSame(tail, mid);
      KeptConcat(Labels(e), AllLabels(tail), last);
    }
  }

  /** A run of printable trees comes back, with the memories in step, exactly when in print order
      no empty label follows a non-empty one or a non-empty starting memory. */
  lemma ExprsComeBack(es: seq<Expr>, last: seq<Byte>, rest: seq<Byte>)
    requires forall e :: e in es ==> Printable(e)
    ensures DecodeExprs(|es|, EncodeExprs(es, last).0 + rest, last) == Ok(es, EncodeExprs(es, last).1, rest)
            <==> Kept(AllLabels(es), last)
  {
    hide Kept, MemoryAfter, RereadAll, EncodeExprs, DecodeExprs, AllLabels, Printable;
    ExprsReread(es, last, last, rest);
    RereadAllIsSame(es, last);
  }

  /** A single label comes back iff it is not empty or nothing is remembered. */
  lemma LabelComesBack(l: seq<Byte>, last: seq<Byte>, rest: seq<Byte>)
    requires l == [] || IsText(l)
    ensures var e := Node(Label(l), Nil, Nil, Nil);
      DecodeExpr(EncodeExpr(e, last).0 + rest, last) == Ok(e, l, rest) <==> (l != [] || last == [])
  {
    var e := Node(Label(l), Nil, Nil, Nil);
    assert Printable(e);
    ExprReread(e, last, last, rest);
  }

  lemma {:induction false} WellFormedLabels(e: Expr)
    requires WellFormed(e)
    ensures Printable(e) && [] !in Labels(e)
  {
    if Arity(e.kind) >= 1 {
      WellFormedLabels(e.a);
    }
    if Arity(e.kind) == 2 {
      WellFormedLabels(e.b);
    }
  }

  lemma {:induction false} AllWellFormedLabels(es: seq<Expr>)
    requires forall e :: e in es ==> WellFormed(e)
    ensures (forall e :: e in es ==> Printable(e)) && [] !in AllLabels(es)
  {
    if es != [] {
      WellFormedLabels(es[0]);
      AllWellFormedLabels(es[1..]);
    }
  }

  /** Checked trees with non-empty labels come back from any common last label, however labels
      repeat; the two memories end equal and exactly the written bytes are consumed. */
  lemma ExprsRoundTrip(es: seq<Expr>, last: seq<Byte>, rest: seq<Byte>)
    requires forall e :: e in es ==> WellFormed(e)
    ensures DecodeExprs(|es|, EncodeExprs(es, last).0 + rest, last) == Ok(es, EncodeExprs(es, last).1, rest)
  {
    hide EncodeExprs, DecodeExprs, AllLabels, Printable, WellFormed;
    AllWellFormedLabels(es);
    ExprsComeBack(es, last, rest);
  }

  // ----- streams -----

  class ExprWriter {
    const out: Output
    var lastPrinted: seq<Byte>

    constructor (out: Output)
      ensures this.out == out && lastPrinted == []
    {
      this.out := out;
      lastPrinted := [];
    }

    method PrintPayload(k: Kind)
      requires k.Int? ==> -MAX_INT <= k.i <= MAX_INT
      modifies this, out
      ensures out.bytes == old(out.bytes) + Payload(k, old(lastPrinted))
      ensures lastPrinted == Remember(k, old(lastPrinted))
    {
      match k {
        case Int(i) => out.WriteInt(i);
        case Float(t) => out.WriteString(t);
        case Double(t) => out.WriteString(t);
        case Str(t) => out.WriteString(t);
        case Label(l) =>
          if lastPrinted != l {
            out.WriteString(l);
            lastPrinted := l;
          }
        case _ =>
      }
    }

    method Print(e: Expr)
      requires IntsInRange(e)
      modifies this, out
      ensures out.bytes == old(out.bytes) + EncodeExpr(e, old(lastPrinted)).0
      ensures lastPrinted == EncodeExpr(e, old(lastPrinted)).1
      decreases e
    {
      if e.Nil? {
        return;
      }
      ghost var start, p := out.bytes, Payload(e.kind, lastPrinted);
      out.Put(DELIMIT + Tag(e.kind));
      PrintPayload(e.kind);
      ghost var a := if Arity(e.kind) >= 1 then EncodeExpr(e.a, lastPrinted) else ([], lastPrinted);
      ghost var b := if Arity(e.kind) == 2 then EncodeExpr(e.b, a.1) else ([], a.1);
      if Arity(e.kind) >= 1 {
        Print(e.a);
      }
      if Arity(e.kind) == 2 {
        Print(e.b);
      }
      out.Put(DELIMIT);
      Regroup(start, DELIMIT + Tag(e.kind), p, a.0, b.0);
    }
  }

  lemma Regroup(start: seq<Byte>, tag: Byte, p: seq<Byte>, a: seq<Byte>, b: seq<Byte>)
    ensures start + [tag] + p + a + b + [DELIMIT] == start + ([tag] + (p + (a + (b + [DELIMIT]))))
    ensures start + [tag] + p + [DELIMIT] == start + ([tag] + (p + ([] + ([] + [DELIMIT]))))
    ensures start + [tag] + p + a + [DELIMIT] == start + ([tag] + (p + (a + ([] + [DELIMIT]))))
  {
  }

  class ExprReader {
    const input: Input
    var lastRead: seq<Byte>

    constructor (input: Input)
      ensures this.input == input && lastRead == []
    {
      this.input := input;
      lastRead := [];
    }

    method ReadKind(tag: int) returns (ok: bool, k: Kind)
      modifies this, input
      ensures ok <==> DecodeKind(tag, old(input.rest), old(lastRead)).Ok?
      ensures ok ==> DecodeKind(tag, old(input.rest), old(lastRead)) == Ok(k, lastRead, input.rest)
    {
      ok, k := true, Add;
      if tag == 'i' as int {
        var i;
        ok, i := input.ReadInt();
        k := Int(i);
      } else if tag == 'l' as int && input.rest != [] && input.rest[0] == DELIMIT {
        k := Label(lastRead);
      } else if tag in {'f' as int, 'd' as int, 'l' as int, 's' as int} {
        var s;
        ok, s := input.ReadString();
        if tag == 'f' as int {
          k := Float(s);
        } else if tag == 'd' as int {
          k := Double(s);
        } else if tag == 's' as int {
          k := Str(s);
        } else {
          k := Label(s);
          if ok {
            lastRead := s;
          }
        }
      } else if tag == 'A' as int {
        k := Add;
      } else if tag == 'S' as int {
        k := Sub;
      } else if tag == 'M' as int {
        k := Mul;
      } else if tag == 'D' as int {
        k := Div;
      } else if tag == 'N' as int {
        k := Neg;
      } else if tag == 'C' as int {
        k := Com;
      } else {
        ok := false;
      }
    }

    method ReadExpr() returns (ok: bool, e: Expr)
      modifies this, input
      ensures ok <==> DecodeExpr(old(input.rest), old(lastRead)).Ok?
      ensures ok ==> DecodeExpr(old(input.rest), old(lastRead)) == Ok(e, lastRead, input.rest)
      decreases |input.rest|
    {
      ok, e := false, Nil;
      if input.rest == [] {
        return;
      }
      if input.rest[0] == DELIMIT {
        return true, Nil;
      }
      var ch := input.rest[0] % DELIMIT;
      input.rest := input.rest[1..];
      var good, k := ReadKind(ch);
      if !good {
        return;
      }
      var a, b, next := Nil, Nil, Nil;
      if Arity(k) >= 1 {
        good, a := ReadExpr();
        if !good {
          return;
        }
      }
      if Arity(k) == 2 {
        good, b := ReadExpr();
        if !good {
          return;
        }
      }
      good, next := ReadExpr();
      if !good || input.rest == [] || input.rest[0] != DELIMIT {
        return;
      }
      input.rest := input.rest[1..];
      return true, Node(k, a, b, next);
    }
  }
}
