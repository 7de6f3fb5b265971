/** The primitive codecs of the binary Lcode format: base-64 integers that end at the byte
    carrying the delimiter bit, integers flagged with the special bit, and strings that end
    at a delimiter bit. */
module BinaryCodec {

  type Byte = b: int | 0 <= b < 256

  const DELIMIT: Byte := 0x80
  const SP_CHAR: Byte := 0x40
  const MINUS: Byte := 0x40
  const MAX_INT: int := 0x7fff_ffff
  const MIN_INT: int := -0x8000_0000
  const MAX_WIDE: int := 0x7fff_ffff_ffff_ffff

  /** What a reader gets from the stream: a value and the bytes left, or a failure (end of
      input, or a value that does not fit a C int). */
  datatype Read<+T> = Fail | Got(value: T, rest: seq<Byte>)

  predicate HasDelimit(b: Byte) {
    b >= DELIMIT
  }

  predicate HasSpecial(b: Byte) {
    b / SP_CHAR % 2 == 1
  }

  /** A peek that ends a record: at end of input the peeked value has every bit set. */
  predicate PeekSpecial(bs: seq<Byte>) {
    bs == [] || HasSpecial(bs[0])
  }

  // ----- what is written -----

  predicate IsDigits(d: seq<int>) {
    d != [] && forall i :: 0 <= i < |d| ==> 0 <= d[i] < 64
  }

  /** Base-64 digits, most significant first, without leading zeros. */
  function Digits(v: nat): (d: seq<int>)
    ensures IsDigits(d)
    ensures v > 0 || |d| > 1 ==> d[0] > 0
  {
    if v < 64 then [v] else Digits(v / 64) + [v % 64]
  }

  /** The digits as bytes: the last one carries the delimiter bit, the first one `flag`. */
  function Marked(d: seq<int>, flag: int): (bs: seq<Byte>)
    requires IsDigits(d) && flag in {0, SP_CHAR}
    ensures |bs| == |d|
  {
    if |d| == 1 then [d[0] + flag + DELIMIT] else [d[0] + flag] + Marked(d[1..], 0)
  }

  function EncodeInt(i: int): seq<Byte> {
    if i >= 0 then Marked(Digits(i), 0) else [MINUS] + Marked(Digits(-i), 0)
  }

  function EncodeSpecial(i: int): seq<Byte> {
    if i >= 0 then Marked(Digits(i), SP_CHAR) else [MINUS] + Marked(Digits(-i), SP_CHAR)
  }

  // ----- what is read -----

  function DecodeTail(limit: int, value: int, bs: seq<Byte>): (r: Read<int>)
    ensures r.Got? ==> |r.rest| < |bs|
    decreases |bs|
  {
    if bs == [] then Fail
    else
      var v := value * 64 + bs[0] % DELIMIT;
      if v > limit then Fail
      else if HasDelimit(bs[0]) then Got(v, bs[1..])
      else DecodeTail(limit, v, bs[1..])
  }

  /** An integer whose magnitude fits the given limit. */
  function DecodeUpTo(limit: int, bs: seq<Byte>): (r: Read<int>)
    ensures r.Got? ==> |r.rest| < |bs|
  {
    if bs == [] then Fail
    else if bs[0] == MINUS then
      match DecodeTail(limit, 0, bs[1..])
      case Fail => Fail
      case Got(v, rest) => Got(-v, rest)
    else if HasDelimit(bs[0]) then Got(bs[0] % SP_CHAR, bs[1..])
    else DecodeTail(limit, bs[0] % SP_CHAR, bs[1..])
  }

  /** The reader of 32-bit integers. */
  function DecodeInt(bs: seq<Byte>): (r: Read<int>)
    ensures r.Got? ==> |r.rest| < |bs|
  {
    DecodeUpTo(MAX_INT, bs)
  }

  /** The reader of 64-bit integers. */
  function DecodeWide(bs: seq<Byte>): (r: Read<int>)
    ensures r.Got? ==> |r.rest| < |bs|
  {
    DecodeUpTo(MAX_WIDE, bs)
  }

  // ----- round trips of integers -----

  function Eval(acc: int, d: seq<int>): int
    decreases |d|
  {
    if d == [] then acc else Eval(acc * 64 + d[0], d[1..])
  }

  lemma {:induction false} EvalSnoc(acc: int, d: seq<int>, x: int)
    ensures Eval(acc, d + [x]) == Eval(acc, d) * 64 + x
    decreases |d|
  {
    if d != [] {
      assert (d + [x])[1..] == d[1..] + [x];
      EvalSnoc(acc * 64 + d[0], d[1..], x);
    }
  }

  lemma {:induction false} EvalDigits(v: nat)
    ensures Eval(0, Digits(v)) == v
  {
    if v >= 64 {
      EvalDigits(v / 64);
      EvalSnoc(0, Digits(v / 64), v % 64);
    }
  }

  lemma {:induction false} EvalAtLeast(acc: nat, d: seq<int>)
    requires forall i :: 0 <= i < |d| ==> 0 <= d[i]
    ensures acc <= Eval(acc, d)
    decreases |d|
  {
    if d != [] {
      EvalAtLeast(acc * 64 + d[0], d[1..]);
    }
  }

  lemma {:induction false} TailReadsDigits(limit: int, acc: nat, d: seq<int>, rest: seq<Byte>)
    requires IsDigits(d)
    ensures DecodeTail(limit, acc, Marked(d, 0) + rest) ==
            if Eval(acc, d) > limit then Fail else Got(Eval(acc, d), rest)
    decreases |d|
  {
    var bs := Marked(d, 0) + rest;
    var v := acc * 64 + d[0];
    EvalAtLeast(v, d[1..]);
    if |d| == 1 {
      assert bs[1..] == rest;
    } else {
      assert bs[1..] == Marked(d[1..], 0) + rest;
      TailReadsDigits(limit, v, d[1..], rest);
    }
  }

  /** Every integer other than the most negative one comes back, whatever follows it. */
  lemma IntRoundTrip(i: int, rest: seq<Byte>)
    requires -MAX_INT <= i <= MAX_INT
    ensures DecodeInt(EncodeInt(i) + rest) == Got(i, rest)
  {
    RoundTripUpTo(MAX_INT, i, rest);
  }

  /** The wide reader gets back every 32-bit integer. */
  lemma WideRoundTrip(i: int, rest: seq<Byte>)
    requires MIN_INT <= i <= MAX_INT
    ensures DecodeWide(EncodeInt(i) + rest) == Got(i, rest)
  {
    RoundTripUpTo(MAX_WIDE, i, rest);
  }

  lemma RoundTripUpTo(limit: int, i: int, rest: seq<Byte>)
    requires -limit <= i <= limit
    ensures DecodeUpTo(limit, EncodeInt(i) + rest) == Got(i, rest)
  {
    hide DecodeUpTo, Marked, Digits, Eval;
    if i >= 0 {
      EvalDigits(i);
      HeadReadsDigits(limit, Digits(i), 0, rest);
    } else {
      EvalDigits(-i);
      MinusReadsDigits(limit, Digits(-i), rest);
    }
  }

  lemma MinusReadsDigits(limit: int, d: seq<int>, rest: seq<Byte>)
    requires IsDigits(d) && Eval(0, d) <= limit
    ensures DecodeUpTo(limit, [MINUS] + Marked(d, 0) + rest) == Got(-Eval(0, d), rest)
  {
    hide DecodeTail, Marked, Eval;
    var bs := Marked(d, 0) + rest;
    assert [MINUS] + Marked(d, 0) + rest == [MINUS] + bs;
    assert ([MINUS] + bs)[1..] == bs;
    TailReadsDigits(limit, 0, d, rest);
  }

  /** The first byte of an unsigned number is read without its special bit. */
  lemma HeadReadsDigits(limit: int, d: seq<int>, flag: int, rest: seq<Byte>)
    requires IsDigits(d) && flag in {0, SP_CHAR} && Eval(0, d) <= limit
    requires |d| > 1 ==> d[0] > 0
    ensures DecodeUpTo(limit, Marked(d, flag) + rest) == Got(Eval(0, d), rest)
  {
    var bs := Marked(d, flag) + rest;
    if |d| == 1 {
      assert bs[1..] == rest;
    } else {
      assert bs[1..] == Marked(d[1..], 0) + rest;
      TailReadsDigits(limit, d[0], d[1..], rest);
    }
  }

  lemma {:induction false} EvalStrict(a: int, b: int, d: seq<int>)
    requires a < b
    ensures Eval(a, d) < Eval(b, d)
    decreases |d|
  {
    if d != [] {
      EvalStrict(a * 64 + d[0], b * 64 + d[0], d[1..]);
    }
  }

  /** After MINUS the reader keeps the special bit in the first digit, so the magnitude read is
      too large. */
  lemma MinusKeepsSpecialBit(d: seq<int>, rest: seq<Byte>)
    requires IsDigits(d)
    ensures var r := DecodeInt([MINUS] + Marked(d, SP_CHAR) + rest);
      r == Fail || (r.rest == rest && r.value < -Eval(0, d))
  {
    var bs := Marked(d, SP_CHAR) + rest;
    assert ([MINUS] + Marked(d, SP_CHAR) + rest)[1..] == bs;
    var first := d[0] + SP_CHAR;
    EvalStrict(d[0], first, d[1..]);
    assert Eval(0, d) == Eval(d[0], d[1..]);
    if |d| == 1 {
      assert bs[1..] == rest;
    } else {
      assert bs[1..] == Marked(d[1..], 0) + rest;
      TailReadsDigits(MAX_INT, first, d[1..], rest);
    }
  }

  /** A flagged integer comes back exactly when it is not negative. */
  lemma SpecialRoundTrip(i: int, rest: seq<Byte>)
    requires -MAX_INT <= i <= MAX_INT
    ensures DecodeInt(EncodeSpecial(i) + rest) == Got(i, rest) <==> i >= 0
  {
    var d := Digits(if i >= 0 then i else -i);
    EvalDigits(if i >= 0 then i else -i);
    if i >= 0 {
      HeadReadsDigits(MAX_INT, d, SP_CHAR, rest);
    } else {
      MinusKeepsSpecialBit(d, rest);
      assert EncodeSpecial(i) + rest == [MINUS] + Marked(d, SP_CHAR) + rest;
    }
  }

  /** The special bit tells a flagged integer from a count or an id. */
  lemma SpecialBitSeparates(i: nat, rest: seq<Byte>)
    ensures !PeekSpecial(EncodeInt(i) + rest)
    ensures PeekSpecial(EncodeSpecial(i) + rest)
  {
  }

  // ----- strings -----

  /** A non-empty string of 7-bit characters, none of them NUL. */
  predicate IsText(s: seq<Byte>) {
    s != [] && forall i :: 0 <= i < |s| ==> 0 < s[i] < 128
  }

  /** Sets the delimiter bit. */
  function Delimited(b: Byte): Byte {
    if HasDelimit(b) then b else b + DELIMIT
  }

  function EncodeString(s: seq<Byte>): (bs: seq<Byte>)
    ensures |bs| == |s|
  {
    if s == [] then [] else s[..|s| - 1] + [Delimited(s[|s| - 1])]
  }

  /** The buffer the reader fills, up to and including the first delimited byte; end of input also
      ends it. */
  function DecodeToken(bs: seq<Byte>): (r: Read<seq<Byte>>)
    ensures r.Got? ==> |r.rest| < |bs|
  {
    if bs == [] then Fail
    else if HasDelimit(bs[0]) then Got([bs[0] % DELIMIT], bs[1..])
    else
      match DecodeToken(bs[1..])
      case Fail => Got([bs[0]], [])
      case Got(s, rest) => Got([bs[0]] + s, rest)
  }

  /** The C string that starts a buffer: everything before the first NUL. */
  function CString(s: seq<Byte>): (t: seq<Byte>)
    ensures t <= s && 0 !in t
    ensures |t| < |s| ==> s[|t|] == 0
  {
    if s == [] || s[0] == 0 then [] else [s[0]] + CString(s[1..])
  }

  function DecodeString(bs: seq<Byte>): (r: Read<seq<Byte>>)
    ensures r.Got? ==> |r.rest| < |bs|
  {
    match DecodeToken(bs)
    case Fail => Fail
    case Got(s, rest) => Got(CString(s), rest)
  }

  lemma StringRoundTrip(s: seq<Byte>, rest: seq<Byte>)
    requires IsText(s)
    ensures DecodeString(EncodeString(s) + rest) == Got(s, rest)
  {
    TokenRoundTrip(s, rest);
    var t := CString(s);
    assert |t| == |s|;
    assert t == s;
  }

  lemma {:induction false} TokenRoundTrip(s: seq<Byte>, rest: seq<Byte>)
    requires IsText(s)
    ensures DecodeToken(EncodeString(s) + rest) == Got(s, rest)
  {
    var bs := EncodeString(s) + rest;
    if |s| == 1 {
      assert s == [s[0]] && bs[1..] == rest;
    } else {
      assert bs[1..] == EncodeString(s[1..]) + rest;
      assert s == [s[0]] + s[1..] && bs[0] == s[0];
      TokenRoundTrip(s[1..], rest);
    }
  }

  // ----- lists -----

  lemma Assoc(a: seq<Byte>, b: seq<Byte>, c: seq<Byte>)
    ensures a + b + c == a + (b + c)
  {
  }

  /** The result of reading a list whose first elements, s, are read already. */
  ghost function Resume<T>(s: seq<T>, r: Read<seq<T>>): Read<seq<T>> {
    if r.Fail? then Fail else Got(s + r.value, r.rest)
  }

  /** A list result with one more element in front. */
  ghost function Cons<T>(x: T, r: Read<seq<T>>): Read<seq<T>> {
    if r.Fail? then Fail else Got([x] + r.value, r.rest)
  }

  lemma ResumeNothing<T>(r: Read<seq<T>>)
    ensures Resume([], r) == r
  {
    if r.Got? {
      assert [] + r.value == r.value;
    }
  }

  lemma ResumeCons<T>(s: seq<T>, x: T, r: Read<seq<T>>)
    ensures Resume(s, Cons(x, r)) == Resume(s + [x], r)
  {
    if r.Got? {
      assert s + ([x] + r.value) == (s + [x]) + r.value;
    }
  }

  lemma ResumeEnd<T>(s: seq<T>, rest: seq<Byte>)
    ensures Resume(s, Got([], rest)) == Got(s, rest)
  {
    assert s + [] == s;
  }

  // ----- streams -----

  /** 64 to the power n. */
  ghost function Pow64(n: nat): nat {
    if n == 0 then 1 else 64 * Pow64(n - 1)
  }

  lemma DigitStep(v: nat, j: nat)
    requires v < Pow64(j + 1)
    ensures v / 64 < Pow64(j)
    ensures Digits(v) == if v / 64 == 0 then [v % 64] else Digits(v / 64) + [v % 64]
    ensures v / 64 == 0 && v > 0 ==> v % 64 > 0
  {
  }

  lemma SixDigitsSuffice()
    ensures -MIN_INT < Pow64(6)
  {
  }

  /** The six base-64 digits of a 32-bit magnitude, and where the significant ones start. */
  method DigitBuffer(magnitude: nat) returns (buf: array<int>, nonZero: nat)
    requires magnitude <= -MIN_INT
    ensures fresh(buf) && buf.Length == 8 && nonZero <= 5
    ensures buf[nonZero..6] == Digits(magnitude)
  {
    hide Digits, Pow64;
    buf := new int[8];
    nonZero := 5;
    var value := magnitude;
    SixDigitsSuffice();
    for j := 6 downto 0
      invariant 0 <= value < Pow64(j)
      invariant j == 6 ==> value == magnitude && nonZero == 5
      invariant j < 6 && value > 0 ==> Digits(magnitude) == Digits(value) + buf[j..6]
      invariant j < 6 && value == 0 ==> j <= nonZero <= 5 && Digits(magnitude) == buf[nonZero..6]
    {
      DigitStep(value, j);
      var nibble := value % 64;
      ghost var tail := buf[j + 1..6];
      buf[j] := nibble;
      assert buf[j + 1..6] == tail;
      assert buf[j..6] == [buf[j]] + buf[j + 1..6];
      if nibble != 0 {
        nonZero := j;
      }
      value := value / 64;
    }
    PowZero();
  }

  lemma PowZero()
    ensures Pow64(0) == 1
  {
  }

  lemma {:induction false} MarkedBytes(d: seq<int>, flag: int)
    requires IsDigits(d) && flag in {0, SP_CHAR}
    ensures forall i :: 0 <= i < |d| ==>
      Marked(d, flag)[i] == d[i] + (if i == 0 then flag else 0) + (if i == |d| - 1 then DELIMIT else 0)
  {
    if |d| > 1 {
      MarkedBytes(d[1..], 0);
    }
  }

  class Output {
    var bytes: seq<Byte>

    constructor ()
      ensures bytes == []
    {
      bytes := [];
    }

    method Put(b: Byte)
      modifies this
      ensures bytes == old(bytes) + [b]
    {
      bytes := bytes + [b];
    }

    /** The digit loop both integer writers share; flag is or-ed into the first digit written. */
    method WriteDigits(magnitude: nat, flag: int)
      requires magnitude <= -MIN_INT && flag in {0, SP_CHAR}
      modifies this
      ensures bytes == old(bytes) + Marked(Digits(magnitude), flag)
    {
      hide Digits, Marked;
      var buf, nonZero := DigitBuffer(magnitude);
      ghost var d := Digits(magnitude);
      assert forall i :: nonZero <= i < 6 ==> buf[i] == d[i - nonZero];
      MarkedBytes(d, flag);
      buf[nonZero] := buf[nonZero] + flag;
      for j := nonZero to 5
        invariant bytes == old(bytes) + Marked(d, flag)[..j - nonZero]
        invariant forall i :: nonZero <= i < 6 ==> buf[i] == d[i - nonZero] + if i == nonZero then flag else 0
      {
        assert buf[j] == Marked(d, flag)[j - nonZero];
        Put(buf[j]);
      }
      Put(buf[5] + DELIMIT);
    }

    /** The magnitude is kept in an unsigned variable, which also holds that of the minimum. */
    method WriteInt(i: int)
      requires MIN_INT <= i <= MAX_INT
      modifies this
      ensures bytes == old(bytes) + EncodeInt(i)
    {
      hide Digits, Marked;
      if i >= 0 {
        WriteDigits(i, 0);
      } else {
        Assoc(bytes, [MINUS], Marked(Digits(-i), 0));
        Put(MINUS);
        WriteDigits(-i, 0);
      }
    }

    method WriteIntSpecial(i: int)
      requires MIN_INT <= i <= MAX_INT
      modifies this
      ensures bytes == old(bytes) + EncodeSpecial(i)
    {
      hide Digits, Marked;
      if i >= 0 {
        WriteDigits(i, SP_CHAR);
      } else {
        Assoc(bytes, [MINUS], Marked(Digits(-i), SP_CHAR));
        Put(MINUS);
        WriteDigits(-i, SP_CHAR);
      }
    }

    /** Puts each character when its successor is known, so the last one gets the delimiter. */
    method WriteString(s: seq<Byte>)
      modifies this
      ensures bytes == old(bytes) + EncodeString(s)
    {
      for i := 0 to |s|
        invariant bytes == old(bytes) + EncodeString(s)[..i]
      {
        if i + 1 < |s| {
          Put(s[i]);
        } else {
          Put(Delimited(s[i]));
        }
      }
    }
  }

  class Input {
    var rest: seq<Byte>

    constructor (bytes: seq<Byte>)
      ensures rest == bytes
    {
      rest := bytes;
    }

    /** Digit loop of the integer readers; fails at end of input or on overflow. */
    method ReadUpTo(limit: int) returns (ok: bool, value: int)
      modifies this
      ensures ok <==> DecodeUpTo(limit, old(rest)).Got?
      ensures ok ==> DecodeUpTo(limit, old(rest)) == Got(value, rest)
    {
      ok, value := false, 0;
      if rest == [] {
        return;
      }
      var negate := rest[0] == MINUS;
      if !negate {
        value := rest[0] % SP_CHAR;
        if HasDelimit(rest[0]) {
          rest := rest[1..];
          return true, value;
        }
      }
      rest := rest[1..];
      ghost var expected := DecodeTail(limit, value, rest);
      while rest != [] && !ok
        invariant ok ==> expected == Got(value, rest)
        invariant !ok ==> expected == DecodeTail(limit, value, rest)
        decreases |rest|
      {
        var ch := rest[0];
        value := value * 64 + ch % DELIMIT;
        if value > limit {
          return;
        }
        ok := HasDelimit(ch);
        rest := rest[1..];
      }
      if negate {
        value := -value;
      }
    }

    method ReadInt() returns (ok: bool, value: int)
      modifies this
      ensures ok <==> DecodeInt(old(rest)).Got?
      ensures ok ==> DecodeInt(old(rest)) == Got(value, rest)
    {
      ok, value := ReadUpTo(MAX_INT);
    }

    method ReadWide() returns (ok: bool, value: int)
      modifies this
      ensures ok <==> DecodeWide(old(rest)).Got?
      ensures ok ==> DecodeWide(old(rest)) == Got(value, rest)
    {
      ok, value := ReadUpTo(MAX_WIDE);
    }

    method ReadString() returns (ok: bool, s: seq<Byte>)
      modifies this
      ensures ok <==> DecodeString(old(rest)).Got?
      ensures ok ==> DecodeString(old(rest)) == Got(s, rest)
    {
      s := [];
      var done := false;
      ghost var start := rest;
      while rest != [] && !done
        invariant done ==> s != [] && DecodeToken(start) == Got(s, rest)
        invariant !done ==> DecodeToken(start) == Prepend(s, DecodeToken(rest))
        decreases |rest|
      {
        var ch := rest[0];
        PrependStep(s, rest);
        s := s + [ch % DELIMIT];
        done := HasDelimit(ch);
        rest := rest[1..];
      }
      ok := s != [];
      s := CString(s);
    }
  }

  /** The result of a string read that has already collected s. */
  ghost function Prepend(s: seq<Byte>, r: Read<seq<Byte>>): Read<seq<Byte>> {
    if s == [] then r else if r.Got? then Got(s + r.value, r.rest) else Got(s, [])
  }

  lemma PrependStep(s: seq<Byte>, bs: seq<Byte>)
    requires bs != []
    ensures Prepend(s, DecodeToken(bs)) ==
            if HasDelimit(bs[0]) then Got(s + [bs[0] % DELIMIT], bs[1..])
            else Prepend(s + [bs[0] % DELIMIT], DecodeToken(bs[1..]))
  {
    var r := DecodeToken(bs[1..]);
    if !HasDelimit(bs[0]) && r.Got? {
      assert s + ([bs[0]] + r.value) == (s + [bs[0]]) + r.value;
    }
    assert [] + [bs[0] % DELIMIT] == [bs[0] % DELIMIT];
  }
}
