/** The loop-iteration profiler's symbol table: chained buckets over an intrusive contents
    list, doubling when three quarters full. */
module IterTable {
  import opened Collections

  class IterSymbol {
    const iter: int
    var weight: int
    var nextHash: IterSymbol?
    var prevHash: IterSymbol?
    var nextSymbol: IterSymbol?
    var prevSymbol: IterSymbol?

    constructor (iter: int, weight: int)
      ensures this.iter == iter && this.weight == weight
    {
      this.iter, this.weight := iter, weight;
      nextHash, prevHash, nextSymbol, prevSymbol := null, null, null, null;
    }
  }

  // ----- what the table means: a list of (iteration count, weight) -----

  datatype Entry = Entry(iter: int, weight: int)

  ghost function Position(p: seq<Entry>, iter: int): (i: nat)
    ensures i <= |p|
    ensures i < |p| ==> p[i].iter == iter
    ensures forall j :: 0 <= j < i ==> p[j].iter != iter
  {
    if p == [] || p[0].iter == iter then 0 else 1 + Position(p[1..], iter)
  }

  /** One call of the profiler on the abstract list. */
  ghost function Record(p: seq<Entry>, iter: int): seq<Entry> {
    var i := Position(p, iter);
    if iter == 0 then p
    else if i < |p| then p[i := Entry(iter, p[i].weight + 1)]
    else p + [Entry(iter, 1)]
  }

  ghost function Run(calls: seq<int>): seq<Entry> {
    if calls == [] then [] else Record(Run(calls[..|calls| - 1]), calls[|calls| - 1])
  }

  ghost function Iters(p: seq<Entry>): seq<int> {
    seq(|p|, i requires 0 <= i < |p| => p[i].iter)
  }

  ghost function Weight(p: seq<Entry>, iter: int): int {
    var i := Position(p, iter);
    if i < |p| then p[i].weight else 0
  }

  /** The non-zero values of a call sequence in order of first occurrence. */
  ghost function FirstOccurrences(calls: seq<int>): seq<int> {
    if calls == [] then []
    else
      var n := |calls| - 1;
      var before := FirstOccurrences(calls[..n]);
      if calls[n] == 0 || calls[n] in before then before else before + [calls[n]]
  }

  /** After any run of calls, each weight is the number of calls with that non-zero count, and
      the contents list is in order of first occurrence. */
  lemma {:induction false} RunCounts(calls: seq<int>, x: int)
    ensures Weight(Run(calls), x) == if x == 0 then 0 else multiset(calls)[x]
    ensures Iters(Run(calls)) == FirstOccurrences(calls)
  {
    if calls != [] {
      var n := |calls| - 1;
      assert calls == calls[..n] + [calls[n]];
      RunCounts(calls[..n], x);
      RecordWeight(Run(calls[..n]), calls[n], x);
    }
  }

  lemma RecordWeight(p: seq<Entry>, iter: int, x: int)
    ensures Weight(Record(p, iter), x) == Weight(p, x) + if iter == x && iter != 0 then 1 else 0
    ensures Iters(Record(p, iter)) == if iter == 0 || iter in Iters(p) then Iters(p) else Iters(p) + [iter]
  {
    var i, r := Position(p, iter), Record(p, iter);
    assert i < |p| ==> Iters(p)[i] == iter;
    assert forall j :: 0 <= j < |p| ==> r[j].iter == p[j].iter;
    var a, b := Position(p, x), Position(r, x);
    if a < |p| {
      assert r[a].iter == x;
      assert b == a;
    } else {
      assert forall j :: 0 <= j < |p| ==> r[j].iter != x;
    }
  }

  // ----- buckets -----

  /** The mask of a power-of-two size keeps the remainder, also for negative counts. */
  function Bucket(s: IterSymbol, size: nat): nat
    requires size > 0
  {
    s.iter % size
  }

  /** Index of the most recent symbol of bucket k among the first n, or -1. */
  ghost function Newest(c: seq<IterSymbol>, n: nat, size: nat, k: nat): (j: int)
    requires size > 0 && n <= |c|
    ensures -1 <= j < n
    ensures j >= 0 ==> Bucket(c[j], size) == k
    ensures forall i :: j < i < n ==> Bucket(c[i], size) != k
  {
    if n == 0 then -1
    else if Bucket(c[n - 1], size) == k then n - 1
    else Newest(c, n - 1, size, k)
  }

  ghost function At(c: seq<IterSymbol>, j: int): IterSymbol?
    requires -1 <= j < |c|
  {
    if j < 0 then null else c[j]
  }

  /** Index of the symbol that follows symbol i on its chain. */
  ghost function Link(c: seq<IterSymbol>, size: nat, i: nat): (j: int)
    requires size > 0 && i < |c|
    ensures -1 <= j < i
  {
    Newest(c, i, size, Bucket(c[i], size))
  }

  lemma {:induction false} NewestOfPrefix(c: seq<IterSymbol>, d: seq<IterSymbol>, n: nat, size: nat, k: nat)
    requires size > 0 && n <= |c| <= |d| && d[..|c|] == c
    ensures Newest(d, n, size, k) == Newest(c, n, size, k)
  {
  }

  /** A symbol that follows another one on a chain is not the newest of any bucket. */
  lemma LinkedIsNotNewest(c: seq<IterSymbol>, n: nat, size: nat, i: nat, k: nat)
    requires size > 0 && i < n <= |c| && k < size && Link(c, size, i) >= 0
    ensures Newest(c, n, size, k) != Link(c, size, i)
  {
    hide Newest;
  }

  /** The bucket array points at the newest symbol of each bucket. */
  ghost predicate Heads(c: seq<IterSymbol>, size: nat, heads: seq<IterSymbol?>, n: nat)
    requires size > 0 && n <= |c|
  {
    |heads| == size &&
    forall k {:trigger heads[k]} :: 0 <= k < size ==> heads[k] == At(c, Newest(c, n, size, k))
  }

  /** Every hash chain over the first n symbols is linked both ways, newest symbol first. */
  ghost predicate Links(c: seq<IterSymbol>, size: nat, n: nat)
    requires size > 0 && n <= |c|
    reads c`nextHash, c`prevHash
  {
    && (forall k {:trigger Newest(c, n, size, k)} :: 0 <= k < size && Newest(c, n, size, k) >= 0 ==>
          c[Newest(c, n, size, k)].prevHash == null)
    && (forall i {:trigger c[i].nextHash} :: 0 <= i < n ==> c[i].nextHash == At(c, Link(c, size, i)))
    && (forall i {:trigger Link(c, size, i)} :: 0 <= i < n && Link(c, size, i) >= 0 ==>
          c[Link(c, size, i)].prevHash == c[i])
  }

  ghost predicate DistinctIters(c: seq<IterSymbol>) {
    forall i, j :: 0 <= i < j < |c| ==> c[i].iter != c[j].iter
  }

  /** Puts symbol n at the head of its bucket. */
  method Push(h: array<IterSymbol?>, ghost c: seq<IterSymbol>, ghost n: nat, s: IterSymbol)
    requires h.Length > 0 && n < |c| && c[n] == s && Distinct(c)
    requires Heads(c, h.Length, h[..], n) && Links(c, h.Length, n)
    modifies h, s`nextHash, c`prevHash
    ensures Heads(c, h.Length, h[..], n + 1) && Links(c, h.Length, n + 1)
  {
    hide Newest, Links;
    var k := s.iter % h.Length;
    HeadsPush(c, h.Length, h[..], n);
    LinkFirst(c, h.Length, n, s, h[k]);
    h[k] := s;
  }

  lemma HeadsPush(c: seq<IterSymbol>, size: nat, heads: seq<IterSymbol?>, n: nat)
    requires size > 0 && n < |c| && Heads(c, size, heads, n)
    ensures var k := Bucket(c[n], size);
      heads[k] == At(c, Link(c, size, n)) && Heads(c, size, heads[k := c[n]], n + 1)
  {
  }

  /** Links symbol n in front of the chain that starts at hashHead. */
  method LinkFirst(ghost c: seq<IterSymbol>, ghost size: nat, ghost n: nat, s: IterSymbol, hashHead: IterSymbol?)
    requires size > 0 && n < |c| && c[n] == s && Distinct(c) && hashHead == At(c, Link(c, size, n))
    requires Links(c, size, n)
    modifies s`nextHash, c`prevHash
    ensures Links(c, size, n + 1)
  {
    hide Newest, Links, Link, Chains;
    ghost var nexts, prevs := Nexts(c), Prevs(c);
    LinksAreChains(c, size, n);
    s.nextHash := hashHead;
    s.prevHash := null;
    if hashHead != null {
      hashHead.prevHash := s;
    }
    ghost var j, m := Link(c, size, n), n + 1;
    assert Nexts(c) == nexts[n := At(c, j)];
    assert Prevs(c) == if j >= 0 then prevs[n := null][j := c[n]] else prevs[n := null];
    ChainsGrow(c, size, n, nexts, prevs);
    LinksAreChains(c, size, m);
  }

  ghost function Nexts(c: seq<IterSymbol>): (v: seq<IterSymbol?>)
    reads c
    ensures |v| == |c|
  {
    seq(|c|, i requires 0 <= i < |c| reads c => c[i].nextHash)
  }

  ghost function Prevs(c: seq<IterSymbol>): (v: seq<IterSymbol?>)
    reads c
    ensures |v| == |c|
  {
    seq(|c|, i requires 0 <= i < |c| reads c => c[i].prevHash)
  }

  /** The chains as their link fields spell them. */
  ghost predicate Chains(c: seq<IterSymbol>, size: nat, n: nat, nexts: seq<IterSymbol?>, prevs: seq<IterSymbol?>)
    requires size > 0 && n <= |c| == |nexts| == |prevs|
  {
    && (forall k {:trigger Newest(c, n, size, k)} :: 0 <= k < size && Newest(c, n, size, k) >= 0 ==>
          prevs[Newest(c, n, size, k)] == null)
    && (forall i {:trigger nexts[i]} :: 0 <= i < n ==> nexts[i] == At(c, Link(c, size, i)))
    && (forall i {:trigger Link(c, size, i)} :: 0 <= i < n && Link(c, size, i) >= 0 ==>
          prevs[Link(c, size, i)] == c[i])
  }

  lemma LinksAreChains(c: seq<IterSymbol>, size: nat, n: nat)
    requires size > 0 && n <= |c|
    ensures Links(c, size, n) <==> Chains(c, size, n, Nexts(c), Prevs(c))
  {
    hide Newest, Link;
    var nexts, prevs := Nexts(c), Prevs(c);
    assert forall i {:trigger nexts[i]} :: 0 <= i < |c| ==> nexts[i] == c[i].nextHash;
    assert forall i {:trigger c[i].nextHash} :: 0 <= i < |c| ==> nexts[i] == c[i].nextHash;
    assert forall i {:trigger prevs[i]} :: 0 <= i < |c| ==> prevs[i] == c[i].prevHash;
  }

  /** Putting symbol n in front of its chain. */
  lemma ChainsGrow(c: seq<IterSymbol>, size: nat, n: nat, nexts: seq<IterSymbol?>, prevs: seq<IterSymbol?>)
    requires size > 0 && n < |c| == |nexts| == |prevs| && Chains(c, size, n, nexts, prevs)
    ensures var j := Link(c, size, n);
      Chains(c, size, n + 1, nexts[n := At(c, j)], if j >= 0 then prevs[n := null][j := c[n]] else prevs[n := null])
  {
    hide Newest;
    var j, m := Link(c, size, n), n + 1;
    var prevs' := if j >= 0 then prevs[n := null][j := c[n]] else prevs[n := null];
    forall k | 0 <= k < size && Newest(c, m, size, k) >= 0
      ensures prevs'[Newest(c, m, size, k)] == null
    {
      NewestStep(c, n, size, k);
    }
    forall i | 0 <= i < n && Link(c, size, i) >= 0
      ensures prevs'[Link(c, size, i)] == c[i]
    {
      LinkedIsNotNewest(c, n, size, i, Bucket(c[n], size));
    }
  }

  lemma NewestStep(c: seq<IterSymbol>, n: nat, size: nat, k: nat)
    requires size > 0 && n < |c|
    ensures Newest(c, n + 1, size, k) == if Bucket(c[n], size) == k then n else Newest(c, n, size, k)
  {
  }

  ghost predicate Listed(c: seq<IterSymbol>, head: IterSymbol?, tail: IterSymbol?)
    reads c`nextSymbol, c`prevSymbol
  {
    && head == (if c == [] then null else c[0])
    && tail == (if c == [] then null else c[|c| - 1])
    && (forall i {:trigger c[i].nextSymbol} :: 0 <= i < |c| ==>
          c[i].nextSymbol == if i + 1 < |c| then c[i + 1] else null)
    && (forall i {:trigger c[i].prevSymbol} :: 0 <= i < |c| ==> c[i].prevSymbol == if i > 0 then c[i - 1] else null)
  }

  /** 32 doubled some number of times. */
  ghost predicate TableSize(n: nat) {
    n == 32 || (n > 32 && n % 2 == 0 && TableSize(n / 2))
  }

  lemma Doubled(n: nat)
    requires TableSize(n)
    ensures TableSize(n * 2) && n - n / 4 <= n * 2 - n * 2 / 4
  {
  }

  class SymbolTable {
    var hash: array<IterSymbol?>
    var hashSize: nat
    var resizeSize: nat
    var head: IterSymbol?
    var tail: IterSymbol?
    var count: nat
    ghost var contents: seq<IterSymbol>

    ghost predicate Valid()
      reads this, hash, contents`nextHash, contents`prevHash, contents`nextSymbol, contents`prevSymbol
    {
      && TableSize(hashSize) && hashSize > 0 && hash.Length == hashSize
      && resizeSize == hashSize - hashSize / 4
      && count == |contents| <= resizeSize
      && DistinctIters(contents)
      && Listed(contents, head, tail)
      && Heads(contents, hashSize, hash[..], |contents|) && Links(contents, hashSize, |contents|)
    }

    ghost function View(): seq<Entry>
      reads this, contents
    {
      seq(|contents|, i requires 0 <= i < |contents| reads this, contents =>
                        Entry(contents[i].iter, contents[i].weight))
    }

    constructor ()
      ensures Valid() && contents == [] && fresh(hash)
    {
      hashSize, resizeSize, count := 32, 24, 0;
      hash := new IterSymbol?[32](_ => null);
      head, tail, contents := null, null, [];
    }

    /** Walks one chain. */
    method Find(iter: int) returns (s: IterSymbol?)
      requires Valid()
      ensures s == null ==> forall x :: x in contents ==> x.iter != iter
      ensures s != null ==> s in contents && s.iter == iter
    {
      hide Newest;
      var k := iter % hashSize;
      s := hash[k];
      ghost var n: nat := |contents|;
      while s != null && s.iter != iter
        invariant n <= |contents| && s == At(contents, Newest(contents, n, hashSize, k))
        invariant forall i :: n <= i < |contents| ==> contents[i].iter != iter
        decreases n
      {
        n := Newest(contents, n, hashSize, k);
        assert s.nextHash == At(contents, Link(contents, hashSize, n));
        s := s.nextHash;
      }
    }

    /** Builds all chains afresh, from the contents list, for a bucket array of the given size. */
    method Rehash(newSize: nat) returns (newHash: array<IterSymbol?>)
      requires newSize > 0 && DistinctIters(contents) && Listed(contents, head, tail)
      modifies contents`nextHash, contents`prevHash
      ensures fresh(newHash) && newHash.Length == newSize
      ensures Heads(contents, newSize, newHash[..], |contents|) && Links(contents, newSize, |contents|)
    {
      newHash := new IterSymbol?[newSize](_ => null);
      var s := head;
      ghost var n := 0;
      assert Distinct(contents);
      while s != null
        invariant fresh(newHash) && newHash.Length == newSize
        invariant n <= |contents| && s == if n < |contents| then contents[n] else null
        invariant Heads(contents, newSize, newHash[..], n) && Links(contents, newSize, n)
        modifies newHash, contents`nextHash, contents`prevHash
        decreases |contents| - n
      {
        hide Heads, Links, DistinctIters;
        Push(newHash, contents, n, s);
        s := s.nextSymbol;
        n := n + 1;
      }
    }

    /** Doubles the bucket array. */
    method Resize()
      requires Valid()
      modifies this`hash, this`hashSize, this`resizeSize, contents`nextHash, contents`prevHash
      ensures Valid() && fresh(hash) && hashSize == 2 * old(hashSize)
    {
      hide Newest, Heads, Links, Listed, DistinctIters, TableSize;
      Doubled(hashSize);
      var newSize := hashSize * 2;
      hash := Rehash(newSize);
      hashSize := newSize;
      resizeSize := newSize - newSize / 4;
    }

    /** Links a new symbol to the end of the contents list. */
    method Append(s: IterSymbol)
      requires Listed(contents, head, tail) && Distinct(contents) && s !in contents
      modifies this`head, this`tail, this`contents, s`nextSymbol, s`prevSymbol, contents`nextSymbol
      ensures contents == old(contents) + [s] && Listed(contents, head, tail)
    {
      s.nextSymbol := null;
      s.prevSymbol := tail;
      if tail == null {
        head := s;
      } else {
        tail.nextSymbol := s;
      }
      tail := s;
      ghost var c := contents;
      contents := c + [s];
      assert forall i :: 0 <= i < |c| ==> contents[i] == c[i];
    }

    /** Enters a new symbol into the contents list and its bucket. */
    method Enter(s: IterSymbol)
      requires Valid() && count < resizeSize
      requires forall x :: x in contents ==> x.iter != s.iter
      modifies this`head, this`tail, this`contents, this`count, hash
      modifies s`nextSymbol, s`prevSymbol, s`nextHash, s`prevHash
      modifies contents`nextHash, contents`prevHash, contents`nextSymbol
      ensures Valid() && contents == old(contents) + [s]
    {
      hide Newest, Heads, Links, Listed;
      ghost var c := contents;
      Append(s);
      ChainsSnoc(c, s, hashSize, hash[..]);
      assert DistinctIters(contents);
      Push(hash, contents, |c|, s);
      count := count + 1;
    }

    /** Appends a symbol.  `ok` is false when the count is already present, where the source
        stops the program. */
    method Add(iter: int, weight: int) returns (ok: bool, s: IterSymbol)
      requires Valid()
      modifies this, hash, contents`nextHash, contents`prevHash, contents`nextSymbol
      ensures ok <==> forall x :: x in old(contents) ==> x.iter != iter
      ensures ok ==> Valid() && fresh(s) && contents == old(contents) + [s]
      ensures ok ==> s.iter == iter && s.weight == weight
      ensures hash == old(hash) || fresh(hash)
    {
      hide Newest, Heads, Links, Listed, TableSize;
      if count >= resizeSize {
        Resize();
      }
      s := new IterSymbol(iter, weight);
      var dup := Find(iter);
      ok := dup == null;
      if ok {
        Enter(s);
      }
    }

    /** A first occurrence: the symbol is created with weight 0 and then counted. */
    method CountNew(iter: int) returns (s: IterSymbol)
      requires Valid() && forall x :: x in contents ==> x.iter != iter
      modifies this, hash, contents`nextHash, contents`prevHash, contents`nextSymbol
      ensures Valid() && View() == old(View()) + [Entry(iter, 1)]
      ensures hash == old(hash) || fresh(hash)
      ensures fresh(s) && contents == old(contents) + [s]
    {
      hide Newest, Heads, Links, Listed, TableSize, DistinctIters;
      var ok;
      ok, s := Add(iter, 0);
      assert ok;                       // the duplicate exit cannot be reached
      s.weight := s.weight + 1;
    }

    /** A repeated occurrence. */
    method CountAgain(s: IterSymbol) returns (ghost i: nat)
      requires Valid() && s in contents
      modifies s`weight
      ensures Valid() && i < |contents| && contents[i] == s
      ensures View() == old(View())[i := Entry(s.iter, old(View())[i].weight + 1)]
    {
      hide Newest, Heads, Links, Listed, TableSize;
      i :| 0 <= i < |contents| && contents[i] == s;
      s.weight := s.weight + 1;
      assert View() == old(View())[i := Entry(s.iter, old(View())[i].weight + 1)];
    }

    /** One profiler call on this table. */
    method Update(iter: int)
      requires Valid()
      modifies this, hash, contents
      ensures Valid() && View() == Record(old(View()), iter)
      ensures hash == old(hash) || fresh(hash)
      ensures forall x :: x in contents ==> x in old(contents) || fresh(x)
      ensures |contents| >= |old(contents)| && contents[..|old(contents)|] == old(contents)
      ensures forall i :: |old(contents)| <= i < |contents| ==> fresh(contents[i])
    {
      hide Newest, Heads, Links, Listed, TableSize;
      if iter == 0 {
        return;
      }
      ghost var before := View();
      var s := Find(iter);
      if s == null {
        NotPresent(before, iter);
        s := CountNew(iter);
      } else {
        ghost var i := CountAgain(s);
        PresentAt(before, iter, i);
      }
    }
  }

  /** A run of calls on a new table: each weight is the number of calls with that non-zero count,
      and the contents are in order of first occurrence. */
  method Profile(calls: seq<int>) returns (table: SymbolTable)
    ensures table.Valid() && table.View() == Run(calls)
    ensures forall x :: Weight(table.View(), x) == if x == 0 then 0 else multiset(calls)[x]
    ensures Iters(table.View()) == FirstOccurrences(calls)
  {
    hide Newest, Heads, Links, Listed, TableSize, Record, DistinctIters, Weight, Iters, FirstOccurrences;
    table := new SymbolTable();
    assert table.View() == [];
    for i := 0 to |calls|
      invariant table.Valid() && table.View() == Run(calls[..i])
      invariant fresh(table) && fresh(table.hash)
      invariant forall k :: 0 <= k < |table.contents| ==> fresh(table.contents[k])
    {
      assert calls[..i + 1][..i] == calls[..i];
      table.Update(calls[i]);
    }
    assert calls[..|calls|] == calls;
    forall x
      ensures Weight(table.View(), x) == if x == 0 then 0 else multiset(calls)[x]
      ensures Iters(table.View()) == FirstOccurrences(calls)
    {
      RunCounts(calls, x);
    }
    RunCounts(calls, 0);
  }

  lemma NotPresent(p: seq<Entry>, iter: int)
    requires forall i :: 0 <= i < |p| ==> p[i].iter != iter
    ensures Position(p, iter) == |p|
  {
  }

  lemma PresentAt(p: seq<Entry>, iter: int, i: nat)
    requires i < |p| && p[i].iter == iter
    requires forall j :: 0 <= j < i ==> p[j].iter != iter
    ensures Position(p, iter) == i
  {
  }

  /** The chains of a table do not depend on a symbol appended later. */
  lemma ChainsSnoc(c: seq<IterSymbol>, s: IterSymbol, size: nat, heads: seq<IterSymbol?>)
    requires size > 0 && Heads(c, size, heads, |c|) && Links(c, size, |c|)
    ensures Heads(c + [s], size, heads, |c|) && Links(c + [s], size, |c|)
  {
    hide Newest;
    var d := c + [s];
    forall n, k | 0 <= n <= |c| && 0 <= k < size
      ensures Newest(d, n, size, k) == Newest(c, n, size, k)
    {
      NewestOfPrefix(c, d, n, size, k);
    }
    assert forall i :: 0 <= i < |c| ==> d[i] == c[i] && Link(d, size, i) == Link(c, size, i);
  }
}
