/** An Option type, and facts about sets and sequences that several modules need. */
module Collections {

  datatype Option<+T> = None | Some(value: T)

  // ----- sequences -----

  ghost predicate Distinct<T>(s: seq<T>) {
    forall i, j :: 0 <= i < j < |s| ==> s[i] != s[j]
  }

  /** The sequence without the elements of a set. */
  ghost function Without<T>(s: seq<T>, drop: set<T>): seq<T> {
    if s == [] then [] else (if s[0] in drop then [] else [s[0]]) + Without(s[1..], drop)
  }

  // ----- sets -----

  /** A member of a non-empty set. */
  lemma Member<T>(s: set<T>) returns (t: T)
    requires s != {}
    ensures t in s
  {
    t :| t in s;
  }

  /** A member of a that is not in b. */
  lemma Outside<T>(a: set<T>, b: set<T>) returns (t: T)
    requires !(a <= b)
    ensures t in a && t !in b
  {
    t :| t in a && t !in b;
  }

  lemma {:induction false} SubsetSize<T>(a: set<T>, b: set<T>)
    requires a <= b
    ensures |a| <= |b|
  {
    if a != {} {
      var x := Member(a);
      SubsetSize(a - {x}, b - {x});
    }
  }

  /** A subset that misses x is strictly smaller. */
  lemma Shrinks<T>(a: set<T>, b: set<T>, x: T)
    requires a <= b && x in b && x !in a
    ensures |a| < |b|
  {
    assert a <= b - {x};
    SubsetSize(a, b - {x});
  }
}
