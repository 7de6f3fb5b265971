/** Operands in the binary format, and the string and operand tables in front of a function body. */
module BinaryOperand {
  import opened Collections
  import opened BinaryCodec

  type Text = seq<Byte>

  datatype Scope = LocalAbs | LocalGp | GlobalAbs | GlobalGp

  datatype IntType =
    | Char | UChar | Short | UShort | SInt | UInt | Long | ULong
    | LLong | ULLong | LLLong | ULLLong | Pointer

  /** Operands as they are compared when interned.  Register and macro types are carried by the
      name that is written, floating-point values by their printed text. */
  datatype Operand =
    | CbRef(id: int)
    | Register(num: int, ty: Text)
    | RRegister(num: int, ty: Text)
    | Evr(num: int, omega: int, ty: Text)
    | Label(name: Text, scope: Scope)
    | Str(text: Text, scope: Scope)
    | Immed(i: int, ctype: IntType)
    | Float(text: Text)
    | Double(text: Text)
    | Macro(name: Text, ty: Text)

  /** The type and macro names the reader knows, and the texts it takes for numbers. */
  datatype Names = Names(types: set<Text>, macros: set<Text>, isNumber: Text -> bool)

  /** The conversion of a wide integer to 32 bits. */
  function Narrow32(i: int): (n: int)
    ensures MIN_INT <= n <= MAX_INT
    ensures (n - i) % 0x1_0000_0000 == 0
    ensures n == i <==> MIN_INT <= i <= MAX_INT
  {
    (i - MIN_INT) % 0x1_0000_0000 + MIN_INT
  }

  predicate InRange(i: int) {
    -MAX_INT <= i <= MAX_INT
  }

  predicate IsType(names: Names, ty: Text) {
    IsText(ty) && ty in names.types
  }

  predicate ValidOperand(names: Names, o: Operand) {
    match o
    case CbRef(id) => InRange(id)
    case Register(n, ty) => InRange(n) && IsType(names, ty)
    case RRegister(n, ty) => InRange(n) && IsType(names, ty)
    case Evr(n, omega, ty) => InRange(n) && InRange(omega) && IsType(names, ty)
    case Label(l, _) => IsText(l)
    case Str(s, _) => IsText(s)
    case Immed(_, _) => true
    case Float(f) => IsText(f) && names.isNumber(f)
    case Double(f) => IsText(f) && names.isNumber(f)
    case Macro(name, ty) => IsText(name) && name in names.macros && IsType(names, ty)
  }

  // ----- specification of the writer -----

  function IntTag(c: IntType): (t: int)
    ensures 0 < t < 128
  {
    match c
    case Char => 'C' as int
    case UChar => 'D' as int
    case Short => 'S' as int
    case UShort => 'T' as int
    case SInt => 'i' as int
    case UInt => 'J' as int
    case Long => 'L' as int
    case ULong => 'M' as int
    case LLong => 'W' as int
    case ULLong => 'X' as int
    case LLLong => 'Y' as int
    case ULLLong => 'Z' as int
    case Pointer => 'P' as int
  }

  function OperandTag(o: Operand): (t: int)
    ensures 0 < t < 128
  {
    match o
    case CbRef(_) => 'c' as int
    case Register(_, _) => 'r' as int
    case RRegister(_, _) => 'R' as int
    case Evr(_, _, _) => 'e' as int
    case Label(_, s) => (match s case LocalAbs => '1' as int case LocalGp => '2' as int
                                 case GlobalAbs => '3' as int case GlobalGp => '4' as int)
    case Str(_, s) => (match s case LocalAbs => '5' as int case LocalGp => '6' as int
                               case GlobalAbs => '7' as int case GlobalGp => '8' as int)
    case Immed(_, c) => IntTag(c)
    case Float(_) => 'f' as int
    case Double(_) => 'd' as int
    case Macro(_, _) => 'm' as int
  }

  function OperandPayload(o: Operand): seq<Byte> {
    match o
    case CbRef(id) => EncodeInt(id)
    case Register(n, ty) => EncodeInt(n) + EncodeString(ty)
    case RRegister(n, ty) => EncodeInt(n) + EncodeString(ty)
    case Evr(n, omega, ty) => EncodeInt(n) + (EncodeInt(omega) + EncodeString(ty))
    case Label(l, _) => EncodeString(l)
    case Str(s, _) => EncodeString(s)
    case Immed(i, _) => EncodeInt(Narrow32(i))
    case Float(f) => EncodeString(f)
    case Double(f) => EncodeString(f)
    case Macro(name, ty) => EncodeString(name) + EncodeString(ty)
  }

  function EncodeOperand(o: Operand): seq<Byte> {
    [DELIMIT + OperandTag(o)] + OperandPayload(o)
  }

  // ----- specification of the reader -----

  function IntTypeOf(tag: int): Option<IntType> {
    if tag == 'C' as int then Some(Char)
    else if tag == 'D' as int then Some(UChar)
    else if tag == 'S' as int then Some(Short)
    else if tag == 'T' as int then Some(UShort)
    else if tag == 'i' as int then Some(SInt)
    else if tag == 'J' as int then Some(UInt)
    else if tag == 'L' as int then Some(Long)
    else if tag == 'M' as int then Some(ULong)
    else if tag == 'W' as int then Some(LLong)
    else if tag == 'X' as int then Some(ULLong)
    else if tag == 'Y' as int then Some(LLLong)
    else if tag == 'Z' as int then Some(ULLLong)
    else if tag == 'P' as int then Some(Pointer)
    else None
  }

  /** The scope of a label tag.  The tag of a local gp label is read as global. */
  function LabelScopeOf(tag: int): Option<Scope> {
    if tag == 'l' as int || tag == '3' as int then Some(GlobalAbs)
    else if tag == '1' as int then Some(LocalAbs)
    else if tag == '2' as int || tag == '4' as int then Some(GlobalGp)
    else None
  }

  function StringScopeOf(tag: int): Option<Scope> {
    if tag == 's' as int || tag == '7' as int then Some(GlobalAbs)
    else if tag == '5' as int then Some(LocalAbs)
    else if tag == '6' as int then Some(LocalGp)
    else if tag == '8' as int then Some(GlobalGp)
    else None
  }

  function ReadTyped(names: Names, bs: seq<Byte>, make: Text -> Operand): (r: Read<Operand>)
    ensures r.Got? ==> |r.rest| < |bs|
  {
    match DecodeString(bs)
    case Fail => Fail
    case Got(ty, rest) => if ty in names.types then Got(make(ty), rest) else Fail
  }

  function ReadText(bs: seq<Byte>, make: Text -> Operand): (r: Read<Operand>)
    ensures r.Got? ==> |r.rest| < |bs|
  {
    match DecodeString(bs)
    case Fail => Fail
    case Got(s, rest) => Got(make(s), rest)
  }

  function ReadNumber(names: Names, bs: seq<Byte>, make: Text -> Operand): (r: Read<Operand>)
    ensures r.Got? ==> |r.rest| < |bs|
  {
    match DecodeString(bs)
    case Fail => Fail
    case Got(s, rest) => if names.isNumber(s) then Got(make(s), rest) else Fail
  }

  /** Tags that are followed by an integer. */
  function DecodeNumbered(names: Names, tag: int, bs: seq<Byte>): (r: Read<Operand>)
    ensures r.Got? ==> |r.rest| < |bs|
  {
    if IntTypeOf(tag).Some? then
      match DecodeWide(bs)
      case Fail => Fail
      case Got(i, rest) => Got(Immed(i, IntTypeOf(tag).value), rest)
    else
      match DecodeInt(bs)
      case Fail => Fail
      case Got(n, rest) =>
        if tag == 'c' as int then Got(CbRef(n), rest)
        else if tag == 'r' as int then ReadTyped(names, rest, ty => Register(n, ty))
        else if tag == 'R' as int then ReadTyped(names, rest, ty => RRegister(n, ty))
        else if tag == 'e' as int then
          match DecodeInt(rest)
          case Fail => Fail
          case Got(omega, rest') => ReadTyped(names, rest', ty => Evr(n, omega, ty))
        else Fail
  }

  /** Tags that are followed by a string. */
  function DecodeNamed(names: Names, tag: int, bs: seq<Byte>): (r: Read<Operand>)
    ensures r.Got? ==> |r.rest| < |bs|
  {
    if LabelScopeOf(tag).Some? then ReadText(bs, s => Label(s, LabelScopeOf(tag).value))
    else if StringScopeOf(tag).Some? then ReadText(bs, s => Str(s, StringScopeOf(tag).value))
    else if tag == 'f' as int then ReadNumber(names, bs, s => Float(s))
    else if tag == 'd' as int then ReadNumber(names, bs, s => Double(s))
    else if tag == 'm' as int then
      match DecodeString(bs)
      case Fail => Fail
      case Got(name, rest) =>
        if name in names.macros then ReadTyped(names, rest, ty => Macro(name, ty)) else Fail
    else Fail
  }

  predicate IsNumbered(tag: int) {
    tag == 'c' as int || tag == 'r' as int || tag == 'R' as int || tag == 'e' as int || IntTypeOf(tag).Some?
  }

  function DecodeOperand(names: Names, bs: seq<Byte>): (r: Read<Operand>)
    ensures r.Got? ==> |r.rest| < |bs|
  {
    if bs == [] || !HasDelimit(bs[0]) then Fail
    else
      var tag := bs[0] % DELIMIT;
      if IsNumbered(tag) then DecodeNumbered(names, tag, bs[1..]) else DecodeNamed(names, tag, bs[1..])
  }

  // ----- round trip -----

  predicate IsLocalGpLabel(o: Operand) {
    o.Label? && o.scope == LocalGp
  }

  /** What the reader makes of an operand: local gp labels become global, immediates are cut to
      32 bits. */
  function Returned(o: Operand): Operand {
    match o
    case Label(l, s) => if s == LocalGp then Label(l, GlobalGp) else o
    case Immed(i, c) => Immed(Narrow32(i), c)
    case _ => o
  }

  /** The operand survives writing and reading. */
  predicate Survives(o: Operand) {
    !IsLocalGpLabel(o) && (o.Immed? ==> MIN_INT <= o.i <= MAX_INT)
  }

  /** The tags of older files: a label or string without a scope is global. */
  lemma OldTags(names: Names, s: Text, rest: seq<Byte>)
    requires IsText(s)
    ensures DecodeOperand(names, [DELIMIT + 'l' as int] + (EncodeString(s) + rest)) == Got(Label(s, GlobalAbs), rest)
    ensures DecodeOperand(names, [DELIMIT + 's' as int] + (EncodeString(s) + rest)) == Got(Str(s, GlobalAbs), rest)
  {
    hide EncodeString, DecodeString;
    StringRoundTrip(s, rest);
  }

  lemma TypedRoundTrip(names: Names, ty: Text, rest: seq<Byte>, make: Text -> Operand)
    requires IsType(names, ty)
    ensures ReadTyped(names, EncodeString(ty) + rest, make) == Got(make(ty), rest)
  {
    hide EncodeString, DecodeString;
    StringRoundTrip(ty, rest);
  }

  lemma NumberedRoundTrip(names: Names, o: Operand, rest: seq<Byte>)
    requires ValidOperand(names, o) && (o.CbRef? || o.Register? || o.RRegister? || o.Evr? || o.Immed?)
    ensures IsNumbered(OperandTag(o))
    ensures DecodeNumbered(names, OperandTag(o), OperandPayload(o) + rest) == Got(Returned(o), rest)
  {
    hide EncodeInt, DecodeInt, DecodeWide, EncodeString, ReadTyped, IsText, Narrow32;
    match o
    case CbRef(id) =>
      IntRoundTrip(id, rest);
    case Register(n, ty) =>
      Assoc(EncodeInt(n), EncodeString(ty), rest);
      IntRoundTrip(n, EncodeString(ty) + rest);
      TypedRoundTrip(names, ty, rest, t => Register(n, t));
    case RRegister(n, ty) =>
      Assoc(EncodeInt(n), EncodeString(ty), rest);
      IntRoundTrip(n, EncodeString(ty) + rest);
      TypedRoundTrip(names, ty, rest, t => RRegister(n, t));
    case Evr(n, omega, ty) =>
      Assoc(EncodeInt(n), EncodeInt(omega) + EncodeString(ty), rest);
      Assoc(EncodeInt(omega), EncodeString(ty), rest);
      IntRoundTrip(n, EncodeInt(omega) + (EncodeString(ty) + rest));
      IntRoundTrip(omega, EncodeString(ty) + rest);
      TypedRoundTrip(names, ty, rest, t => Evr(n, omega, t));
    case Immed(i, c) =>
      WideRoundTrip(Narrow32(i), rest);
  }

  lemma NamedRoundTrip(names: Names, o: Operand, rest: seq<Byte>)
    requires ValidOperand(names, o) && (o.Label? || o.Str? || o.Float? || o.Double? || o.Macro?)
    ensures !IsNumbered(OperandTag(o))
    ensures DecodeNamed(names, OperandTag(o), OperandPayload(o) + rest) == Got(Returned(o), rest)
  {
    hide EncodeString, DecodeString, ReadTyped, IsText;
    match o
    case Label(l, _) => StringRoundTrip(l, rest);
    case Str(t, _) => StringRoundTrip(t, rest);
    case Float(f) => StringRoundTrip(f, rest);
    case Double(f) => StringRoundTrip(f, rest);
    case Macro(name, ty) =>
      Assoc(EncodeString(name), EncodeString(ty), rest);
      StringRoundTrip(name, EncodeString(ty) + rest);
      TypedRoundTrip(names, ty, rest, t => Macro(name, t));
  }

  /** Every operand comes back as the reader makes it, and so unchanged iff it is no local gp label
      and no immediate of more than 32 bits. */
  lemma OperandRoundTrip(names: Names, o: Operand, rest: seq<Byte>)
    requires ValidOperand(names, o)
    ensures DecodeOperand(names, EncodeOperand(o) + rest) == Got(Returned(o), rest)
    ensures DecodeOperand(names, EncodeOperand(o) + rest) == Got(o, rest) <==> Survives(o)
    ensures IsLocalGpLabel(o) ==> DecodeOperand(names, EncodeOperand(o) + rest) == Got(Label(o.name, GlobalGp), rest)
    ensures o.Immed? ==>
              exists n :: MIN_INT <= n <= MAX_INT && (n - o.i) % 0x1_0000_0000 == 0
                          && DecodeOperand(names, EncodeOperand(o) + rest) == Got(Immed(n, o.ctype), rest)
  {
    hide DecodeNumbered, DecodeNamed, OperandPayload, OperandTag, ValidOperand, IsNumbered;
    var bs := EncodeOperand(o) + rest;
    assert bs[1..] == OperandPayload(o) + rest;
    if o.CbRef? || o.Register? || o.RRegister? || o.Evr? || o.Immed? {
      NumberedRoundTrip(names, o, rest);
    } else {
      NamedRoundTrip(names, o, rest);
    }
  }

  /** The reader never produces a local gp label, whatever the bytes. */
  lemma NoLocalGpLabelRead(names: Names, bs: seq<Byte>)
    ensures var r := DecodeOperand(names, bs);
      r.Got? ==> !IsLocalGpLabel(r.value)
  {
    hide DecodeInt, DecodeWide, DecodeString;
  }

  // ----- the two tables -----

  function EncodeStrings(ss: seq<Text>): seq<Byte> {
    if ss == [] then [] else EncodeString(ss[0]) + EncodeStrings(ss[1..])
  }

  function DecodeStrings(n: int, bs: seq<Byte>): (r: Read<seq<Text>>)
    decreases n
  {
    if n <= 0 then Got([], bs)
    else
      var first := DecodeString(bs);
      if first.Fail? then Fail else
      match DecodeStrings(n - 1, first.rest)
      case Fail => Fail
      case Got(ss, rest) => Got([first.value] + ss, rest)
  }

  function EncodeOperands(os: seq<Operand>): seq<Byte> {
    if os == [] then [] else EncodeOperand(os[0]) + EncodeOperands(os[1..])
  }

  function DecodeOperands(names: Names, n: int, bs: seq<Byte>): (r: Read<seq<Operand>>)
    decreases n
  {
    if n <= 0 then Got([], bs)
    else
      var first := DecodeOperand(names, bs);
      if first.Fail? then Fail else
      match DecodeOperands(names, n - 1, first.rest)
      case Fail => Fail
      case Got(os, rest) => Got([first.value] + os, rest)
  }

  function AllReturned(os: seq<Operand>): (r: seq<Operand>)
    ensures |r| == |os|
  {
    seq(|os|, i requires 0 <= i < |os| => Returned(os[i]))
  }

  lemma {:induction false} StringsRoundTrip(ss: seq<Text>, rest: seq<Byte>)
    requires forall i :: 0 <= i < |ss| ==> IsText(ss[i])
    ensures DecodeStrings(|ss|, EncodeStrings(ss) + rest) == Got(ss, rest)
    decreases |ss|
  {
    hide EncodeString, DecodeString, IsText;
    if ss == [] {
      assert [] + rest == rest;
    } else {
      Assoc(EncodeString(ss[0]), EncodeStrings(ss[1..]), rest);
      StringRoundTrip(ss[0], EncodeStrings(ss[1..]) + rest);
      StringsRoundTrip(ss[1..], rest);
      assert ss == [ss[0]] + ss[1..];
    }
  }

  /** The operand table comes back entry by entry. */
  lemma {:induction false} OperandsRoundTrip(names: Names, os: seq<Operand>, rest: seq<Byte>)
    requires forall i :: 0 <= i < |os| ==> ValidOperand(names, os[i])
    ensures DecodeOperands(names, |os|, EncodeOperands(os) + rest) == Got(AllReturned(os), rest)
    decreases |os|
  {
    hide EncodeOperand, DecodeOperand, ValidOperand, Returned;
    if os == [] {
      assert [] + rest == rest;
    } else {
      Assoc(EncodeOperand(os[0]), EncodeOperands(os[1..]), rest);
      OperandRoundTrip(names, os[0], EncodeOperands(os[1..]) + rest);
      OperandsRoundTrip(names, os[1..], rest);
      assert AllReturned(os) == [Returned(os[0])] + AllReturned(os[1..]);
    }
  }

  lemma {:induction false} NoLocalGpLabelInTable(names: Names, n: int, bs: seq<Byte>)
    ensures var r := DecodeOperands(names, n, bs);
      r.Got? ==> forall o :: o in r.value ==> !IsLocalGpLabel(o)
    decreases n
  {
    hide DecodeOperand;
    if n > 0 {
      NoLocalGpLabelRead(names, bs);
      var first := DecodeOperand(names, bs);
      if first.Got? {
        NoLocalGpLabelInTable(names, n - 1, first.rest);
      }
    }
  }

  // ----- streams -----

  /** The writer negates integers, so the minimum int is out of its reach. */
  predicate IntsFit(o: Operand) {
    match o
    case CbRef(id) => InRange(id)
    case Register(n, _) => InRange(n)
    case RRegister(n, _) => InRange(n)
    case Evr(n, omega, _) => InRange(n) && InRange(omega)
    case _ => true
  }

  method PrintOperand(out: Output, o: Operand)
    requires IntsFit(o)
    modifies out
    ensures out.bytes == old(out.bytes) + EncodeOperand(o)
  {
    hide EncodeInt, EncodeString, OperandTag;
    ghost var b0 := out.bytes;
    out.Put(DELIMIT + OperandTag(o));
    ghost var b1 := out.bytes;
    match o
    case CbRef(id) =>
      out.WriteInt(id);
    case Register(n, ty) =>
      out.WriteInt(n);
      out.WriteString(ty);
      Assoc(b1, EncodeInt(n), EncodeString(ty));
    case RRegister(n, ty) =>
      out.WriteInt(n);
      out.WriteString(ty);
      Assoc(b1, EncodeInt(n), EncodeString(ty));
    case Evr(n, omega, ty) =>
      out.WriteInt(n);
      out.WriteInt(omega);
      out.WriteString(ty);
      Assoc(b1 + EncodeInt(n), EncodeInt(omega), EncodeString(ty));
      Assoc(b1, EncodeInt(n), EncodeInt(omega) + EncodeString(ty));
    case Label(l, _) =>
      out.WriteString(l);
    case Str(t, _) =>
      out.WriteString(t);
    case Immed(i, _) =>
      out.WriteInt(Narrow32(i));
    case Float(f) =>
      out.WriteString(f);
    case Double(f) =>
      out.WriteString(f);
    case Macro(name, ty) =>
      out.WriteString(name);
      out.WriteString(ty);
      Assoc(b1, EncodeString(name), EncodeString(ty));
    Assoc(b0, [DELIMIT + OperandTag(o)], OperandPayload(o));
  }

  /** Reads a type name the reader knows. */
  method ReadType(input: Input, names: Names) returns (ok: bool, ty: Text)
    modifies input
    ensures var r := DecodeString(old(input.rest));
      && (ok <==> r.Got? && r.value in names.types)
      && (ok ==> r == Got(ty, input.rest))
  {
    hide DecodeString;
    ok, ty := input.ReadString();
    ok := ok && ty in names.types;
  }

  method ReadNumbered(input: Input, names: Names, tag: int) returns (ok: bool, o: Operand)
    requires IsNumbered(tag)
    modifies input
    ensures ok <==> DecodeNumbered(names, tag, old(input.rest)).Got?
    ensures ok ==> DecodeNumbered(names, tag, old(input.rest)) == Got(o, input.rest)
  {
    hide DecodeInt, DecodeWide, DecodeString, IntTypeOf;
    var n, omega, ty;
    if IntTypeOf(tag).Some? {
      ok, n := input.ReadWide();
      o := Immed(n, IntTypeOf(tag).value);
      return;
    }
    ok, n := input.ReadInt();
    o := CbRef(n);
    if !ok || tag == 'c' as int {
      return;
    }
    if tag == 'r' as int || tag == 'R' as int {
      ok, ty := ReadType(input, names);
      o := if tag == 'r' as int then Register(n, ty) else RRegister(n, ty);
    } else {
      ok, omega := input.ReadInt();
      if ok {
        ok, ty := ReadType(input, names);
        o := Evr(n, omega, ty);
      }
    }
  }

  method ReadNamed(input: Input, names: Names, tag: int) returns (ok: bool, o: Operand)
    modifies input
    ensures ok <==> DecodeNamed(names, tag, old(input.rest)).Got?
    ensures ok ==> DecodeNamed(names, tag, old(input.rest)) == Got(o, input.rest)
  {
    hide DecodeString, LabelScopeOf, StringScopeOf;
    o := CbRef(0);
    var scope, textScope := LabelScopeOf(tag), StringScopeOf(tag);
    if scope.None? && textScope.None? && tag !in {'f' as int, 'd' as int, 'm' as int} {
      return false, o;
    }
    var s, ty;
    ok, s := input.ReadString();
    if !ok {
      return;
    }
    if scope.Some? {
      o := Label(s, scope.value);
    } else if textScope.Some? {
      o := Str(s, textScope.value);
    } else if tag == 'f' as int || tag == 'd' as int {
      ok := names.isNumber(s);
      o := if tag == 'f' as int then Float(s) else Double(s);
    } else if s !in names.macros {
      ok := false;
    } else {
      ok, ty := ReadType(input, names);
      o := Macro(s, ty);
    }
  }

  /** The operand reader is the specified parser, for all inputs. */
  method ReadOperand(input: Input, names: Names) returns (ok: bool, o: Operand)
    modifies input
    ensures ok <==> DecodeOperand(names, old(input.rest)).Got?
    ensures ok ==> DecodeOperand(names, old(input.rest)) == Got(o, input.rest)
  {
    hide DecodeNumbered, DecodeNamed;
    if input.rest == [] || !HasDelimit(input.rest[0]) {
      return false, CbRef(0);
    }
    var tag := input.rest[0] % DELIMIT;
    input.rest := input.rest[1..];
    if IsNumbered(tag) {
      ok, o := ReadNumbered(input, names, tag);
    } else {
      ok, o := ReadNamed(input, names, tag);
    }
  }

  method PrintStrings(out: Output, ss: seq<Text>)
    modifies out
    ensures out.bytes == old(out.bytes) + EncodeStrings(ss)
  {
    for i := 0 to |ss|
      invariant out.bytes + EncodeStrings(ss[i..]) == old(out.bytes) + EncodeStrings(ss)
    {
      hide EncodeString;
      assert ss[i..][1..] == ss[i + 1..];
      Assoc(out.bytes, EncodeString(ss[i]), EncodeStrings(ss[i + 1..]));
      out.WriteString(ss[i]);
    }
    assert out.bytes + [] == out.bytes;
  }

  method PrintOperands(out: Output, os: seq<Operand>)
    requires forall i :: 0 <= i < |os| ==> IntsFit(os[i])
    modifies out
    ensures out.bytes == old(out.bytes) + EncodeOperands(os)
  {
    for i := 0 to |os|
      invariant out.bytes + EncodeOperands(os[i..]) == old(out.bytes) + EncodeOperands(os)
    {
      hide EncodeOperand;
      assert os[i..][1..] == os[i + 1..];
      Assoc(out.bytes, EncodeOperand(os[i]), EncodeOperands(os[i + 1..]));
      PrintOperand(out, os[i]);
    }
    assert out.bytes + [] == out.bytes;
  }

  lemma StringsStep(ss: seq<Text>, n: int, bs: seq<Byte>)
    ensures n <= 0 ==> Resume(ss, DecodeStrings(n, bs)) == Got(ss, bs)
    ensures n > 0 ==>
              var first := DecodeString(bs);
              Resume(ss, DecodeStrings(n, bs)) ==
              if first.Fail? then Fail else Resume(ss + [first.value], DecodeStrings(n - 1, first.rest))
  {
    hide DecodeString;
    ResumeEnd(ss, bs);
    if n > 0 && DecodeString(bs).Got? {
      var first := DecodeString(bs);
      ResumeCons(ss, first.value, DecodeStrings(n - 1, first.rest));
    }
  }

  method ReadStrings(input: Input, n: int) returns (ok: bool, ss: seq<Text>)
    modifies input
    ensures ok <==> DecodeStrings(n, old(input.rest)).Got?
    ensures ok ==> DecodeStrings(n, old(input.rest)) == Got(ss, input.rest)
  {
    hide DecodeString, DecodeStrings, Resume;
    ok, ss := true, [];
    ghost var all := DecodeStrings(n, input.rest);
    ResumeNothing(all);
    var i := 0;
    while i < n
      invariant n > 0 ==> i <= n
      invariant all == Resume(ss, DecodeStrings(n - i, input.rest))
    {
      StringsStep(ss, n - i, input.rest);
      var s;
      ok, s := input.ReadString();
      if !ok {
        return;
      }
      ss, i := ss + [s], i + 1;
    }
    StringsStep(ss, n - i, input.rest);
  }

  lemma OperandsStep(names: Names, os: seq<Operand>, n: int, bs: seq<Byte>)
    ensures n <= 0 ==> Resume(os, DecodeOperands(names, n, bs)) == Got(os, bs)
    ensures n > 0 ==>
              var first := DecodeOperand(names, bs);
              Resume(os, DecodeOperands(names, n, bs)) ==
              if first.Fail? then Fail else Resume(os + [first.value], DecodeOperands(names, n - 1, first.rest))
  {
    hide DecodeOperand;
    ResumeEnd(os, bs);
    if n > 0 && DecodeOperand(names, bs).Got? {
      var first := DecodeOperand(names, bs);
      ResumeCons(os, first.value, DecodeOperands(names, n - 1, first.rest));
    }
  }

  method ReadOperands(input: Input, names: Names, n: int) returns (ok: bool, os: seq<Operand>)
    modifies input
    ensures ok <==> DecodeOperands(names, n, old(input.rest)).Got?
    ensures ok ==> DecodeOperands(names, n, old(input.rest)) == Got(os, input.rest)
  {
    hide DecodeOperand, DecodeOperands, Resume;
    ok, os := true, [];
    ghost var all := DecodeOperands(names, n, input.rest);
    ResumeNothing(all);
    var i := 0;
    while i < n
      invariant n > 0 ==> i <= n
      invariant all == Resume(os, DecodeOperands(names, n - i, input.rest))
    {
      OperandsStep(names, os, n - i, input.rest);
      var o;
      ok, o := ReadOperand(input, names);
      if !ok {
        return;
      }
      os, i := os + [o], i + 1;
    }
    OperandsStep(names, os, n - i, input.rest);
  }
}
