/** Access specifiers: which objects and bytes a memory op may touch, the independence tests
    over them, and the merge of two specifier lists. */
module AccSpec {
  import opened Collections

  datatype Spec = Spec(isDef: bool, id: int, version: int, offset: int, size: int)

  predicate SameObject(a: Spec, b: Spec) {
    a.id == b.id && a.version == b.version
  }

  /** The comparison the independence test makes; size -1 means the extent is unknown. */
  predicate Clash(a: Spec, b: Spec) {
    && SameObject(a, b)
    && (|| a.size == -1 || b.size == -1
        || (a.offset <= b.offset && a.offset + a.size > b.offset)
        || (b.offset < a.offset && b.offset + b.size > a.offset))
  }

  /** The specifier allows an access to this byte of its object. */
  ghost predicate Touches(a: Spec, byte: int) {
    a.size == -1 || a.offset <= byte < a.offset + a.size
  }

  /** Some byte of the object may be touched by both. */
  ghost predicate Meet(a: Spec, b: Spec) {
    SameObject(a, b) && exists byte :: Touches(a, byte) && Touches(b, byte)
  }

  predicate Meaningful(a: Spec) {
    a.size == -1 || a.size > 0
  }

  /** An extent without bytes that the comparison still places inside the other. */
  predicate Hollow(a: Spec, b: Spec) {
    || (b.size <= 0 && b.size != -1 && (a.size == -1 || a.offset <= b.offset < a.offset + a.size))
    || (a.size <= 0 && a.size != -1 && (b.size == -1 || b.offset < a.offset < b.offset + b.size))
  }

  /** On all sizes, the comparison answers for the bytes except on hollow extents. */
  lemma ClashIsMeet(a: Spec, b: Spec)
    ensures (Clash(a, b) <==> Meet(a, b)) <==> !(SameObject(a, b) && Hollow(a, b))
    ensures Meaningful(a) && Meaningful(b) ==> !Hollow(a, b)
  {
    if SameObject(a, b) {
      var later := if a.size == -1 || (b.size != -1 && a.offset <= b.offset) then b.offset else a.offset;
      if Clash(a, b) && !Hollow(a, b) {
        assert Touches(a, later) && Touches(b, later);
      }
    }
  }

  // ----- lists -----

  ghost predicate Conflicts(s: seq<Spec>, t: seq<Spec>) {
    exists i, j :: 0 <= i < |s| && 0 <= j < |t| && Clash(s[i], t[j])
  }

  ghost predicate ShareByte(s: seq<Spec>, t: seq<Spec>) {
    exists i, j :: 0 <= i < |s| && 0 <= j < |t| && Meet(s[i], t[j])
  }

  ghost predicate AllMeaningful(s: seq<Spec>) {
    forall i :: 0 <= i < |s| ==> Meaningful(s[i])
  }

  /** On meaningful sizes the list test is exact on bytes, and so symmetric. */
  lemma ConflictsIsShareByte(s: seq<Spec>, t: seq<Spec>)
    requires AllMeaningful(s) && AllMeaningful(t)
    ensures Conflicts(s, t) <==> ShareByte(s, t)
    ensures Conflicts(s, t) <==> Conflicts(t, s)
  {
    forall i, j | 0 <= i < |s| && 0 <= j < |t|
      ensures Clash(s[i], t[j]) <==> Meet(s[i], t[j])
      ensures Clash(s[i], t[j]) <==> Clash(t[j], s[i])
    {
      ClashIsMeet(s[i], t[j]);
    }
  }

  /** The specifier already stands for f. */
  predicate Stands(t: Spec, f: Spec) {
    SameObject(t, f) && t.offset == f.offset && (t.size == -1 || t.size == f.size)
  }

  ghost predicate Redundant(to: seq<Spec>, f: Spec) {
    exists i :: 0 <= i < |to| && Stands(to[i], f)
  }

  ghost function Added(to: seq<Spec>, f: Spec): seq<Spec> {
    if Redundant(to, f) then to else to + [f]
  }

  ghost function Merged(to: seq<Spec>, from: seq<Spec>): seq<Spec> {
    if from == [] then to
    else
      var n := |from| - 1;
      Added(Merged(to, from[..n]), from[n])
  }

  lemma AddedConflicts(to: seq<Spec>, f: Spec, x: seq<Spec>)
    ensures Conflicts(Added(to, f), x) <==> Conflicts(to, x) || Conflicts([f], x)
    ensures Conflicts(x, Added(to, f)) <==> Conflicts(x, to) || Conflicts(x, [f])
  {
    var all := Added(to, f);
    assert forall i :: 0 <= i < |to| ==> all[i] == to[i];
    assert [f][0] == f;
    if Redundant(to, f) {
      var i :| 0 <= i < |to| && Stands(to[i], f);
      forall j | 0 <= j < |x|
        ensures Clash(f, x[j]) ==> Clash(to[i], x[j])
        ensures Clash(x[j], f) ==> Clash(x[j], to[i])
      {
      }
    } else {
      assert all[|to|] == f;
      assert forall i :: 0 <= i < |all| ==> all[i] == if i < |to| then to[i] else f;
    }
  }

  lemma ConflictsSnoc(s: seq<Spec>, f: Spec, x: seq<Spec>)
    ensures Conflicts(s + [f], x) <==> Conflicts(s, x) || Conflicts([f], x)
    ensures Conflicts(x, s + [f]) <==> Conflicts(x, s) || Conflicts(x, [f])
  {
    var all := s + [f];
    assert forall i :: 0 <= i < |all| ==> all[i] == if i < |s| then s[i] else f;
    assert all[|s|] == f && [f][0] == f;
    assert forall i :: 0 <= i < |s| ==> all[i] == s[i];
  }

  /** The merged list conflicts with exactly what either list conflicted with, on either side of
      the test and whatever the sizes. */
  lemma {:induction false} MergedConflicts(to: seq<Spec>, from: seq<Spec>, x: seq<Spec>)
    ensures Conflicts(Merged(to, from), x) <==> Conflicts(to, x) || Conflicts(from, x)
    ensures Conflicts(x, Merged(to, from)) <==> Conflicts(x, to) || Conflicts(x, from)
  {
    if from != [] {
      var n := |from| - 1;
      assert from == from[..n] + [from[n]];
      MergedConflicts(to, from[..n], x);
      AddedConflicts(Merged(to, from[..n]), from[n], x);
      ConflictsSnoc(from[..n], from[n], x);
    }
  }

  /** The first list stays in front, and every specifier of the second has one standing for it. */
  lemma {:induction false} MergedStandsForBoth(to: seq<Spec>, from: seq<Spec>)
    ensures |to| <= |Merged(to, from)| && Merged(to, from)[..|to|] == to
    ensures forall k :: 0 <= k < |from| ==> Redundant(Merged(to, from), from[k])
    ensures forall f :: f in Merged(to, from) ==> f in to || f in from
  {
    if from != [] {
      var n := |from| - 1;
      MergedStandsForBoth(to, from[..n]);
      var before, after := Merged(to, from[..n]), Merged(to, from);
      assert forall i :: 0 <= i < |before| ==> after[i] == before[i];
      forall k | 0 <= k < |from|
        ensures Redundant(after, from[k])
      {
        if k < n {
          assert Redundant(before, from[..n][k]);
          var i :| 0 <= i < |before| && Stands(before[i], from[k]);
          assert Stands(after[i], from[k]);
        } else if !Redundant(before, from[k]) {
          assert Stands(after[|before|], from[k]);
        }
      }
    }
  }

  lemma {:induction false} RedundantAddNothing(to: seq<Spec>, from: seq<Spec>)
    requires forall k :: 0 <= k < |from| ==> Redundant(to, from[k])
    ensures Merged(to, from) == to
  {
    if from != [] {
      RedundantAddNothing(to, from[..|from| - 1]);
    }
  }

  /** Merging the same list again, or a list with itself, changes nothing. */
  lemma MergeIsIdempotent(to: seq<Spec>, from: seq<Spec>)
    ensures Merged(Merged(to, from), from) == Merged(to, from)
    ensures Merged(to, to) == to
  {
    MergedStandsForBoth(to, from);
    RedundantAddNothing(Merged(to, from), from);
    forall k | 0 <= k < |to|
      ensures Redundant(to, to[k])
    {
      assert Stands(to[k], to[k]);
    }
    RedundantAddNothing(to, to);
  }

  // ----- the linked lists of the ops -----

  class Cell {
    const spec: Spec
    var next: Cell?

    constructor (spec: Spec)
      ensures this.spec == spec && next == null
    {
      this.spec := spec;
      next := null;
    }
  }

  ghost function At(cells: seq<Cell>, i: nat): Cell? {
    if i < |cells| then cells[i] else null
  }

  /** The cells are linked in this order. */
  ghost predicate Linked(cells: seq<Cell>)
    reads cells`next
  {
    && Distinct(cells)
    && (forall i {:trigger cells[i].next} :: 0 <= i < |cells| ==> cells[i].next == At(cells, i + 1))
  }

  ghost function Specs(cells: seq<Cell>): (s: seq<Spec>)
    ensures |s| == |cells|
  {
    seq(|cells|, i requires 0 <= i < |cells| => cells[i].spec)
  }

  lemma SpecsSnoc(cells: seq<Cell>, c: Cell)
    ensures Specs(cells + [c]) == Specs(cells) + [c.spec]
  {
  }

  ghost predicate SharesObject(s: seq<Spec>, t: seq<Spec>) {
    exists i, j :: 0 <= i < |s| && 0 <= j < |t| && SameObject(s[i], t[j])
  }

  /** The id-only test: 1 exactly when no object is named by both lists.  It never reports
      independence where the byte test does not. */
  method ListsIndependent(as1: Cell?, as2: Cell?, ghost s: seq<Cell>, ghost t: seq<Cell>) returns (r: int)
    requires Linked(s) && as1 == At(s, 0) && Linked(t) && as2 == At(t, 0)
    ensures r == 0 || r == 1
    ensures r == 1 <==> !SharesObject(Specs(s), Specs(t))
    ensures r == 1 ==> !Conflicts(Specs(s), Specs(t))
  {
    var cas1 := as1;
    ghost var i := 0;
    while cas1 != null
      invariant i <= |s| && cas1 == At(s, i)
      invariant forall k, m :: 0 <= k < i && 0 <= m < |t| ==> !SameObject(s[k].spec, t[m].spec)
      decreases |s| - i
    {
      var cas2 := as2;
      ghost var j := 0;
      while cas2 != null
        invariant j <= |t| && cas2 == At(t, j)
        invariant forall m :: 0 <= m < j ==> !SameObject(s[i].spec, t[m].spec)
        decreases |t| - j
      {
        if cas1.spec.id == cas2.spec.id && cas1.spec.version == cas2.spec.version {
          assert SameObject(Specs(s)[i], Specs(t)[j]);
          return 0;
        }
        cas2, j := cas2.next, j + 1;
      }
      cas1, i := cas1.next, i + 1;
    }
    return 1;
  }

  /** The test on two ops.  structCall tells that one of them calls a function returning a
      structure by value; bySyncs that omega sync arcs are in use and prove independence. */
  method Independent(as1: Cell?, as2: Cell?, structCall: bool, bySyncs: bool, ghost s: seq<Cell>, ghost t: seq<Cell>)
    returns (r: int)
    requires Linked(s) && as1 == At(s, 0) && Linked(t) && as2 == At(t, 0)
    ensures r == if structCall then 0 else if !Conflicts(Specs(s), Specs(t)) then 1 else if bySyncs then 2 else 0
    ensures !structCall && !bySyncs && AllMeaningful(Specs(s)) && AllMeaningful(Specs(t)) ==>
              (r == 0 <==> ShareByte(Specs(s), Specs(t)))
  {
    if structCall {
      return 0;
    }
    if AllMeaningful(Specs(s)) && AllMeaningful(Specs(t)) {
      ConflictsIsShareByte(Specs(s), Specs(t));
    }
    var cas1 := as1;
    ghost var i := 0;
    while cas1 != null
      invariant i <= |s| && cas1 == At(s, i)
      invariant forall k, m :: 0 <= k < i && 0 <= m < |t| ==> !Clash(s[k].spec, t[m].spec)
      decreases |s| - i
    {
      var cas2 := as2;
      ghost var j := 0;
      while cas2 != null
        invariant j <= |t| && cas2 == At(t, j)
        invariant forall m :: 0 <= m < j ==> !Clash(s[i].spec, t[m].spec)
        decreases |t| - j
      {
        var a, b := cas1.spec, cas2.spec;
        assert a == Specs(s)[i] && b == Specs(t)[j];
        if a.id == b.id && a.version == b.version {
          if a.size == -1 || b.size == -1 {
            return if bySyncs then 2 else 0;
          } else if (a.offset <= b.offset && a.offset + a.size > b.offset)
                    || (b.offset < a.offset && b.offset + b.size > a.offset) {
            return if bySyncs then 2 else 0;
          }
        }
        cas2, j := cas2.next, j + 1;
      }
      cas1, i := cas1.next, i + 1;
    }
    return 1;
  }

  class Oper {
    var accInfo: Cell?
    ghost var cells: seq<Cell>

    ghost predicate Valid()
      reads this, cells`next
    {
      Linked(cells) && accInfo == At(cells, 0)
    }

    /** The first cell that stands for f, and the last cell seen on the way. */
    method Search(f: Spec) returns (found: bool, tail: Cell?)
      requires Valid()
      ensures found <==> Redundant(Specs(cells), f)
      ensures !found ==> tail == (if cells == [] then null else cells[|cells| - 1])
    {
      var to := accInfo;
      tail := null;
      ghost var i := 0;
      while to != null
        invariant i <= |cells| && to == At(cells, i)
        invariant tail == if i == 0 then null else cells[i - 1]
        invariant forall k :: 0 <= k < i ==> !Stands(Specs(cells)[k], f)
        decreases |cells| - i
      {
        tail := to;
        var t := to.spec;
        assert t == Specs(cells)[i];
        if t.id == f.id && t.version == f.version && t.offset == f.offset && !(t.size != -1 && t.size != f.size) {
          return true, tail;
        }
        to, i := to.next, i + 1;
      }
      return false, tail;
    }

    /** Links a copy of f behind the tail. */
    method Append(f: Spec, tail: Cell?)
      requires Valid() && tail == (if cells == [] then null else cells[|cells| - 1])
      modifies this, cells`next
      ensures Valid() && |cells| == |old(cells)| + 1 && cells[..|old(cells)|] == old(cells)
      ensures fresh(cells[|old(cells)|]) && Specs(cells) == old(Specs(cells)) + [f]
    {
      hide Specs;
      var copy := new Cell(f);
      SpecsSnoc(cells, copy);
      if tail != null {
        tail.next := copy;
      } else {
        accInfo := copy;
      }
      cells := cells + [copy];
    }

    /** Adds f unless a specifier here stands for it. */
    method AddOne(f: Spec)
      requires Valid()
      modifies this, cells`next
      ensures Valid() && Specs(cells) == Added(old(Specs(cells)), f)
      ensures |cells| >= |old(cells)| && cells[..|old(cells)|] == old(cells)
      ensures forall c :: c in cells ==> c in old(cells) || fresh(c)
      ensures forall i :: |old(cells)| <= i < |cells| ==> fresh(cells[i])
      ensures Redundant(old(Specs(cells)), f) ==> unchanged(this) && unchanged(old(cells)`next)
    {
      hide Linked, Specs, Redundant;
      var found, tail := Search(f);
      if !found {
        Append(f, tail);
        assert cells == old(cells) + [cells[|old(cells)|]];
      }
    }

    /** Adds the specifiers of another op, or of this one, that none here stands for. */
    method Merge(from: Oper)
      requires Valid() && from.Valid()
      requires from == this || forall c :: c in cells ==> c !in from.cells
      modifies this, cells`next
      ensures Valid() && Specs(cells) == old(Merged(Specs(cells), Specs(from.cells)))
      ensures |cells| >= |old(cells)| && cells[..|old(cells)|] == old(cells)
      ensures forall i :: |old(cells)| <= i < |cells| ==> fresh(cells[i])
      ensures from.Valid() && from.cells == old(from.cells)
    {
      hide Linked, Specs, Redundant, Merged, Added;
      var fr := from.accInfo;
      ghost var i, theirs, ours := 0, from.cells, cells;
      NothingMerged(Specs(cells), Specs(theirs));
      while fr != null
        invariant Valid() && i <= |theirs| && fr == At(theirs, i)
        invariant from.cells == theirs && from.Valid()
        invariant from == this ==> cells == theirs
        invariant |cells| >= |ours| && cells[..|ours|] == ours
        invariant forall k :: |ours| <= k < |cells| ==> fresh(cells[k])
        invariant from != this ==> forall c :: c in theirs ==> c !in cells
        invariant Specs(cells) == Merged(Specs(ours), Specs(theirs)[..i])
        decreases |theirs| - i
      {
        MergeNext(Specs(ours), theirs, i);
        label before:
        AddOne(fr.spec);
        StaysLinked@before(theirs);
        NextOf(theirs, i);
        fr, i := fr.next, i + 1;
      }
      assert Specs(theirs)[..i] == Specs(theirs);
    }
  }

  lemma NothingMerged(s: seq<Spec>, t: seq<Spec>)
    ensures Merged(s, t[..0]) == s
  {
  }

  lemma MergeNext(s: seq<Spec>, cells: seq<Cell>, i: nat)
    requires i < |cells|
    ensures |Specs(cells)| == |cells|
    ensures Merged(s, Specs(cells)[..i + 1]) == Added(Merged(s, Specs(cells)[..i]), cells[i].spec)
    ensures Redundant(Specs(cells), cells[i].spec)
  {
    assert Specs(cells)[..i + 1][..i] == Specs(cells)[..i];
    assert Stands(Specs(cells)[i], cells[i].spec);
  }

  twostate lemma StaysLinked(cells: seq<Cell>)
    requires old(Linked(cells)) && forall c :: c in cells ==> c.next == old(c.next)
    ensures Linked(cells)
  {
    forall i {:trigger cells[i].next} | 0 <= i < |cells|
      ensures cells[i].next == At(cells, i + 1)
    {
      assert cells[i] in cells;
    }
  }

  lemma NextOf(cells: seq<Cell>, i: nat)
    requires Linked(cells) && i < |cells|
    ensures cells[i].next == At(cells, i + 1)
  {
  }
}
