/** Where an attribute is printed: in the code or in the appendix.  Name lists are scanned by a
    head and a tail pointer, and decisions are remembered per name. */
module Appendix {

  /** isspace of the C locale. */
  predicate IsSpace(c: char) {
    c == ' ' || '\U{0009}' <= c <= '\U{000D}'
  }

  /** list[i..j] is a maximal run of non-space characters. */
  ghost predicate IsToken(list: string, i: int, j: int) {
    && 0 <= i < j <= |list|
    && (forall k :: i <= k < j ==> !IsSpace(list[k]))
    && (i > 0 ==> IsSpace(list[i - 1]))
    && (j < |list| ==> IsSpace(list[j]))
  }

  /** A star is allowed only at the end of a token. */
  ghost predicate Malformed(token: string) {
    exists k :: 0 <= k < |token| - 1 && token[k] == '*'
  }

  ghost predicate IsPrefix(p: string, s: string) {
    |p| <= |s| && s[..|p|] == p
  }

  /** The token is the name, or a prefix of it followed by a star. */
  ghost predicate Matches(token: string, name: string) {
    && token != []
    && var n := |token| - 1;
       if token[n] == '*' then IsPrefix(token[..n], name) else token == name
  }

  /** Some token starting before position n stops the scan. */
  ghost predicate StopsBefore(list: string, name: string, n: int) {
    exists i, j :: IsToken(list, i, j) && i < n && (Malformed(list[i..j]) || Matches(list[i..j], name))
  }

  datatype Outcome = Found | NotFound | Punt

  /** What the scan of a list comes to: the first token that is malformed or matches decides. */
  ghost predicate Answers(list: string, name: string, r: Outcome) {
    match r
    case NotFound => !StopsBefore(list, name, |list|)
    case Found => exists i, j :: IsToken(list, i, j) && !StopsBefore(list, name, i)
                                 && !Malformed(list[i..j]) && Matches(list[i..j], name)
    case Punt => exists i, j :: IsToken(list, i, j) && !StopsBefore(list, name, i) && Malformed(list[i..j])
  }

  ghost predicate WellFormed(list: string) {
    forall i, j :: IsToken(list, i, j) ==> !Malformed(list[i..j])
  }

  ghost predicate Lists(list: string, name: string) {
    exists i, j :: IsToken(list, i, j) && Matches(list[i..j], name)
  }

  /** Two tokens with the same start are the same token. */
  lemma TokenEnd(list: string, i: int, j: int, k: int)
    requires IsToken(list, i, j) && IsToken(list, i, k)
    ensures j == k
  {
  }

  /** A scan has one answer, and on a well-formed list it is whether some token matches. */
  lemma AnswerIsUnique(list: string, name: string, r: Outcome, q: Outcome)
    requires Answers(list, name, r) && Answers(list, name, q)
    ensures r == q
  {
    if !r.NotFound? && !q.NotFound? {
      var i, j :| IsToken(list, i, j) && !StopsBefore(list, name, i)
                  && (Malformed(list[i..j]) || Matches(list[i..j], name))
                  && (Malformed(list[i..j]) <==> r.Punt?);
      var k, m :| IsToken(list, k, m) && !StopsBefore(list, name, k)
                  && (Malformed(list[k..m]) || Matches(list[k..m], name))
                  && (Malformed(list[k..m]) <==> q.Punt?);
      if i == k {
        TokenEnd(list, i, j, m);
      }
    }
  }

  lemma WellFormedAnswer(list: string, name: string, r: Outcome)
    requires WellFormed(list) && Answers(list, name, r)
    ensures r == if Lists(list, name) then Found else NotFound
  {
  }

  // ----- the scan -----

  /** The character a pointer at position i reads: the terminator past the last one. */
  function CharAt(s: string, i: nat): char {
    if i < |s| then s[i] else '\0'
  }

  /** strncmp of n characters of s from head, none of them a terminator, against name. */
  predicate SameStart(s: string, head: nat, n: nat, name: string)
    requires head + n <= |s|
  {
    n <= |name| && name[..n] == s[head..head + n]
  }

  method SkipSpaces(list: string, from: nat) returns (head: nat)
    requires from <= |list|
    ensures from <= head <= |list| && (head < |list| ==> !IsSpace(list[head]))
    ensures forall k :: from <= k < head ==> IsSpace(list[k])
  {
    head := from;
    while head < |list| && IsSpace(list[head])
      invariant from <= head <= |list|
      invariant forall k :: from <= k < head ==> IsSpace(list[k])
    {
      head := head + 1;
    }
  }

  method SkipPlain(list: string, head: nat) returns (tail: nat)
    requires head <= |list|
    ensures head <= tail <= |list| && (tail < |list| ==> IsSpace(list[tail]) || list[tail] == '*')
    ensures forall k :: head <= k < tail ==> !IsSpace(list[k]) && list[k] != '*'
  {
    tail := head;
    while tail < |list| && !IsSpace(list[tail]) && list[tail] != '*'
      invariant head <= tail <= |list|
      invariant forall k :: head <= k < tail ==> !IsSpace(list[k]) && list[k] != '*'
    {
      tail := tail + 1;
    }
  }

  ghost function WordEnd(list: string, i: nat): (j: nat)
    requires i <= |list|
    ensures i <= j <= |list| && (forall k :: i <= k < j ==> !IsSpace(list[k]))
    ensures j < |list| ==> IsSpace(list[j])
    decreases |list| - i
  {
    if i < |list| && !IsSpace(list[i]) then WordEnd(list, i + 1) else i
  }

  /** No token starts among spaces. */
  lemma NoStopInSpaces(list: string, name: string, from: nat, head: nat)
    requires from <= head <= |list| && !StopsBefore(list, name, from)
    requires forall k :: from <= k < head ==> IsSpace(list[k])
    ensures !StopsBefore(list, name, head)
  {
    forall i, j | IsToken(list, i, j) && i < head
      ensures i < from
    {
      assert !IsSpace(list[i]);
    }
  }

  /** Past a token that did not stop the scan, no token has. */
  lemma NoStopInToken(list: string, name: string, head: nat, end: nat)
    requires IsToken(list, head, end) && !StopsBefore(list, name, head)
    requires !Malformed(list[head..end]) && !Matches(list[head..end], name)
    ensures !StopsBefore(list, name, end)
  {
  }

  lemma StarInside(list: string, head: nat, tail: nat)
    requires head <= tail && tail + 1 < |list| && (head > 0 ==> IsSpace(list[head - 1]))
    requires forall k :: head <= k <= tail + 1 ==> !IsSpace(list[k])
    requires list[tail] == '*'
    ensures exists end :: IsToken(list, head, end) && Malformed(list[head..end])
  {
    var end := WordEnd(list, head);
    assert list[head..end][tail - head] == '*';
    assert IsToken(list, head, end);
  }

  /** The token at head when the tail pointer stops at the end of a plain run: the run itself,
      or the run and a final star. */
  lemma PlainToken(list: string, name: string, head: nat, tail: nat)
    requires head < |list| && !IsSpace(list[head]) && head <= tail <= |list|
    requires forall k :: head <= k < tail ==> !IsSpace(list[k]) && list[k] != '*'
    requires head > 0 ==> IsSpace(list[head - 1])
    requires tail < |list| && !IsSpace(list[tail]) ==>
               list[tail] == '*' && (tail + 1 < |list| ==> IsSpace(list[tail + 1]))
    ensures var star := CharAt(list, tail) == '*';
            var end := if star then tail + 1 else tail;
            && IsToken(list, head, end) && !Malformed(list[head..end])
            && (Matches(list[head..end], name) <==>
                SameStart(list, head, tail - head, name) && (star || |name| == tail - head))
  {
    var star := CharAt(list, tail) == '*';
    var end := if star then tail + 1 else tail;
    var token := list[head..end];
    assert forall k :: 0 <= k < |token| ==> token[k] == list[head + k];
    if star {
      assert token[..|token| - 1] == list[head..tail];
    }
  }

  method ScanList(list: string, name: string) returns (r: Outcome)
    ensures Answers(list, name, r)
    ensures WellFormed(list) ==> r == if Lists(list, name) then Found else NotFound
  {
    hide StopsBefore, Malformed, Matches;
    r := ScanTokens(list, name);
    if WellFormed(list) {
      WellFormedAnswer(list, name, r);
    }
  }

  method ScanTokens(list: string, name: string) returns (r: Outcome)
    ensures Answers(list, name, r)
  {
    hide Matches, Malformed;
    var head := 0;
    while true
      invariant head <= |list| && !StopsBefore(list, name, head)
      invariant 0 < head < |list| ==> IsSpace(list[head])
      decreases |list| - head
    {
      var from := head;
      head := SkipSpaces(list, from);
      NoStopInSpaces(list, name, from, head);
      if head == |list| {
        return NotFound;
      }
      var tail := SkipPlain(list, head);
      if tail < |list| && list[tail] == '*' && tail + 1 < |list| && !IsSpace(list[tail + 1]) {
        StarInside(list, head, tail);
        return Punt;
      }
      PlainToken(list, name, head, tail);
      if SameStart(list, head, tail - head, name) && (CharAt(list, tail) == '*' || |name| == tail - head) {
        return Found;
      }
      if tail < |list| && list[tail] == '*' {
        tail := tail + 1;
      }
      NoStopInToken(list, name, head, tail);
      head := tail;
    }
  }

  // ----- remembered decisions -----

  datatype Place = InCode | InAppendix | Failed

  /** The decision made without memory. */
  ghost predicate Decides(code: string, appendix: string, byDefault: bool, name: string, p: Place) {
    match p
    case InAppendix =>
      Answers(code, name, NotFound) && (byDefault || Answers(appendix, name, Found))
    case InCode =>
      || Answers(code, name, Found)
      || (Answers(code, name, NotFound) && !byDefault && Answers(appendix, name, NotFound))
    case Failed =>
      || Answers(code, name, Punt)
      || (Answers(code, name, NotFound) && !byDefault && Answers(appendix, name, Punt))
  }

  /** There is one decision for each name. */
  lemma DecisionIsUnique(code: string, appendix: string, byDefault: bool, name: string, p: Place, q: Place)
    requires Decides(code, appendix, byDefault, name, p) && Decides(code, appendix, byDefault, name, q)
    ensures p == q
  {
  }

  /** Over well-formed lists: the appendix gets a name that the code list does not name, if it
      is the default place or the appendix list names it. */
  lemma WellFormedDecision(code: string, appendix: string, byDefault: bool, name: string, p: Place)
    requires WellFormed(code) && WellFormed(appendix) && Decides(code, appendix, byDefault, name, p)
    ensures p == if !Lists(code, name) && (byDefault || Lists(appendix, name)) then InAppendix else InCode
  {
  }

  /** One attribute table, of the ops or of the blocks: 1 means in the code, 2 in the appendix. */
  class AttributeTable {
    const code: string
    const appendix: string
    const byDefault: bool
    var actions: map<string, int>

    constructor (code: string, appendix: string, byDefault: bool)
      ensures Valid() && this.code == code && this.appendix == appendix && this.byDefault == byDefault
    {
      this.code, this.appendix, this.byDefault := code, appendix, byDefault;
      actions := map[];
    }

    /** Every remembered action is the decision for its name. */
    ghost predicate Valid()
      reads this
    {
      forall name :: name in actions ==>
        && (actions[name] == 1 || actions[name] == 2)
        && Decides(code, appendix, byDefault, name, if actions[name] == 2 then InAppendix else InCode)
    }

    method ShouldGoInAppendix(name: string) returns (p: Place)
      requires Valid()
      modifies this`actions
      ensures Valid() && Decides(code, appendix, byDefault, name, p)
      ensures forall n :: n in old(actions) ==> n in actions && actions[n] == old(actions[n])
      ensures !p.Failed? ==> name in actions
    {
      hide Answers;
      var action := if name in actions then actions[name] else 0;
      if action == 1 {
        return InCode;
      } else if action == 2 {
        return InAppendix;
      }
      var inCode := ScanList(code, name);
      if inCode == Punt {
        return Failed;
      } else if inCode == Found {
        actions := actions[name := 1];
        return InCode;
      }
      var inAppendix := Found;
      if !byDefault {
        inAppendix := ScanList(appendix, name);
      }
      if inAppendix == Punt {
        return Failed;
      } else if inAppendix == Found {
        actions := actions[name := 2];
        return InAppendix;
      }
      actions := actions[name := 1];
      return InCode;
    }

    /** The place the two lists and the default give a name. */
    ghost function PlaceOf(name: string): Place {
      if !Lists(code, name) && (byDefault || Lists(appendix, name)) then InAppendix else InCode
    }

    /** Any sequence of queries gets the answers that would be given without memory. */
    method AnswerAll(names: seq<string>) returns (places: seq<Place>)
      requires Valid() && WellFormed(code) && WellFormed(appendix)
      modifies this`actions
      ensures Valid() && |places| == |names|
      ensures forall i :: 0 <= i < |names| ==>
                places[i] == PlaceOf(names[i])
    {
      hide Decides, Lists, WellFormed;
      places := [];
      for i := 0 to |names|
        invariant Valid() && |places| == i
        invariant forall k :: 0 <= k < i ==>
                    places[k] == PlaceOf(names[k])
      {
        var p := ShouldGoInAppendix(names[i]);
        WellFormedDecision(code, appendix, byDefault, names[i], p);
        places := places + [p];
      }
    }
  }
}
