/** Flag words of functions, blocks and operations, and the strings they are written as.  A flag
    word is modelled by the letters of its printed flags. */
module Flags {
  import opened Collections
  import opened BinaryCodec

  /** The letters of each kind of flag word, in the order they are printed. */
  const FUNC_FLAGS: seq<Byte> := [
    'C' as int, 'D' as int, 'R' as int, 'E' as int, 'H' as int, 'L' as int,
    'S' as int, 'A' as int, 'M' as int, 'P' as int, 'T' as int]
  const CB_FLAGS: seq<Byte> := [
    'E' as int, 'H' as int, 'I' as int, 'N' as int, 'P' as int, 'R' as int,
    'S' as int, 'T' as int, 'U' as int, 'V' as int, 'X' as int]
  const OPER_FLAGS: seq<Byte> := [
    'C' as int, 'L' as int, 'P' as int, 'Q' as int, 'D' as int, 'R' as int,
    'E' as int, 'S' as int, 'M' as int, 'F' as int, 'X' as int, 'Y' as int,
    '?' as int, 'T' as int, 'V' as int, 'K' as int, 'N' as int, 'A' as int]

  const HYPERBLOCK: Byte := 'H' as int
  const PROLOGUE: Byte := 'R' as int
  const EPILOGUE: Byte := 'I' as int
  const LEAF: Byte := 'L' as int

  ghost function Letters(order: seq<Byte>): set<Byte> {
    set c | c in order
  }

  /** The printed flags that are set, in printing order. */
  function FlagString(order: seq<Byte>, flags: set<Byte>): (s: seq<Byte>)
    ensures forall c :: c in s <==> c in order && c in flags
  {
    if order == [] then []
    else (if order[0] in flags then [order[0]] else []) + FlagString(order[1..], flags)
  }

  /** Flags may be written in lower case. */
  function Upper(c: Byte): Byte {
    if 'a' as int <= c <= 'z' as int then c - 32 else c
  }

  /** The flags of a string; a letter without a meaning is an error. */
  function FlagSet(order: seq<Byte>, s: seq<Byte>): (r: Option<set<Byte>>)
    ensures r.Some? <==> forall c :: c in s ==> Upper(c) in order
    ensures r.Some? ==> forall x :: x in r.value <==> exists c :: c in s && Upper(c) == x
  {
    if s == [] then Some({})
    else
      var before := FlagSet(order, s[..|s| - 1]);
      assert s == s[..|s| - 1] + [s[|s| - 1]];
      var x := Upper(s[|s| - 1]);
      if before.Some? && x in order then Some(before.value + {x}) else None
  }

  /** Flags are printed in the given order: one more possible flag comes last. */
  lemma {:induction false} FlagStringSnoc(order: seq<Byte>, c: Byte, flags: set<Byte>)
    ensures FlagString(order + [c], flags) == FlagString(order, flags) + if c in flags then [c] else []
  {
    var last: seq<Byte> := if c in flags then [c] else [];
    if order == [] {
      assert [c][1..] == [] && last + [] == [] + last;
    } else {
      hide FlagString;
      var first: seq<Byte> := if order[0] in flags then [order[0]] else [];
      assert (order + [c])[1..] == order[1..] + [c];
      FlagStringSnoc(order[1..], c, flags);
      FirstFlag(order, flags);
      FirstFlag(order + [c], flags);
      Assoc(first, FlagString(order[1..], flags), last);
    }
  }

  lemma FirstFlag(order: seq<Byte>, flags: set<Byte>)
    requires order != []
    ensures FlagString(order, flags) ==
            (if order[0] in flags then [order[0]] else []) + FlagString(order[1..], flags)
  {
  }

  predicate AllUpper(order: seq<Byte>) {
    forall i :: 0 <= i < |order| ==> Upper(order[i]) == order[i]
  }

  /** A flag word of printed flags comes back from its string. */
  lemma FlagsRoundTrip(order: seq<Byte>, flags: set<Byte>)
    requires AllUpper(order) && flags <= Letters(order)
    ensures FlagSet(order, FlagString(order, flags)) == Some(flags)
  {
    var s := FlagString(order, flags);
    assert forall c :: c in s ==> Upper(c) == c;
    var r := FlagSet(order, s);
    assert forall c :: c in s ==> Upper(c) in order;
    assert forall x :: x in r.value <==> x in flags;
    assert r.value == flags;
  }

  lemma OrdersAreUpper()
    ensures AllUpper(FUNC_FLAGS) && AllUpper(CB_FLAGS) && AllUpper(OPER_FLAGS)
    ensures HYPERBLOCK in FUNC_FLAGS && LEAF in FUNC_FLAGS
    ensures HYPERBLOCK in CB_FLAGS && PROLOGUE in CB_FLAGS && EPILOGUE in CB_FLAGS
  {
    assert FUNC_FLAGS[4] == HYPERBLOCK && FUNC_FLAGS[5] == LEAF;
    assert CB_FLAGS[1] == HYPERBLOCK && CB_FLAGS[5] == PROLOGUE && CB_FLAGS[2] == EPILOGUE;
  }

  /** The loop over the letters of a flag string. */
  method StringToFlags(order: seq<Byte>, s: seq<Byte>) returns (ok: bool, flags: set<Byte>)
    ensures ok <==> FlagSet(order, s).Some?
    ensures ok ==> FlagSet(order, s) == Some(flags)
  {
    ok, flags := true, {};
    for i := 0 to |s|
      invariant FlagSet(order, s[..i]) == Some(flags)
    {
      assert s[..i + 1][..i] == s[..i];
      var c := Upper(s[i]);
      if c !in order {
        assert s[i] in s;
        return false, flags;
      }
      flags := flags + {c};
    }
    assert s[..|s|] == s;
  }
}
