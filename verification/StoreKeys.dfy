/** Prefix freedom of store key names (types/store.go). */
module StoreKeys {
  import opened Lex

  ghost predicate Sorted(s: seq<Bytes>) {
    forall i, j :: 0 <= i < j < |s| ==> Leq(s[i], s[j])
  }

  /** Two names at different positions, the first a prefix of the second. */
  ghost predicate Collides(s: seq<Bytes>) {
    exists i, j :: 0 <= i < |s| && 0 <= j < |s| && i != j && s[i] <= s[j]
  }

  lemma LeqTransitive(a: Bytes, b: Bytes, c: Bytes)
    requires Leq(a, b) && Leq(b, c)
    ensures Leq(a, c)
  {
    if Less(a, b) && Less(b, c) {
      LessTransitive(a, b, c);
    }
  }

  lemma LeastInFront(x: Bytes, s: seq<Bytes>)
    requires Sorted(s) && forall j :: 0 <= j < |s| ==> Leq(x, s[j])
    ensures Sorted([x] + s)
  {
  }

  /** The library sort, as insertion on values. */
  function Insert(x: Bytes, s: seq<Bytes>): seq<Bytes> {
    if s == [] || Leq(x, s[0]) then [x] + s else [s[0]] + Insert(x, s[1..])
  }

  lemma {:induction false} InsertSorts(x: Bytes, s: seq<Bytes>)
    requires Sorted(s)
    ensures Sorted(Insert(x, s)) && multiset(Insert(x, s)) == multiset(s) + multiset{x}
  {
    hide Leq;
    if s == [] || Leq(x, s[0]) {
      forall j | 0 <= j < |s| ensures Leq(x, s[j]) {
        if j > 0 { LeqTransitive(x, s[0], s[j]); }
      }
      LeastInFront(x, s);
    } else {
      var rest := Insert(x, s[1..]);
      InsertSorts(x, s[1..]);
      TailMultiset(s);
      LeqTotal(x, s[0]);
      forall j | 0 <= j < |rest| ensures Leq(s[0], rest[j]) {
        assert rest[j] in multiset(rest);
        assert rest[j] == x || rest[j] in s[1..];
      }
      LeastInFront(s[0], rest);
    }
  }

  lemma LeqTotal(a: Bytes, b: Bytes)
    ensures Leq(a, b) || Leq(b, a)
  {
    LessTotal(a, b);
  }

  function SortStrings(s: seq<Bytes>): (r: seq<Bytes>)
    ensures Sorted(r)
    ensures multiset(r) == multiset(s)
    ensures |r| == |s|
  {
    if s == [] then []
    else
      var rest := SortStrings(s[1..]);
      InsertSorts(s[0], rest);
      TailMultiset(s);
      var r := Insert(s[0], rest);
      assert |multiset(r)| == |multiset(s)|;
      r
  }

  /** There is only one sorted arrangement of the same strings. */
  lemma {:induction false} SortedUnique(s: seq<Bytes>, t: seq<Bytes>)
    requires Sorted(s) && Sorted(t) && multiset(s) == multiset(t)
    ensures s == t
  {
    assert |multiset(s)| == |multiset(t)|;
    if s != [] {
      hide Leq;
      SameLeast(s, t);
      TailMultiset(s);
      TailMultiset(t);
      SortedUnique(s[1..], t[1..]);
    }
  }

  lemma TailMultiset(s: seq<Bytes>)
    requires s != []
    ensures multiset(s[1..]) == multiset(s) - multiset{s[0]} && s == [s[0]] + s[1..]
  {
    assert s == [s[0]] + s[1..];
  }

  lemma SameLeast(s: seq<Bytes>, t: seq<Bytes>)
    requires s != [] && t != [] && Sorted(s) && Sorted(t) && multiset(s) == multiset(t)
    ensures s[0] == t[0]
  {
    hide Less;
    assert s[0] in multiset(t) && t[0] in multiset(s);
    var i :| 0 <= i < |t| && t[i] == s[0];
    var j :| 0 <= j < |s| && s[j] == t[0];
    assert Leq(t[0], s[0]) && Leq(s[0], t[0]);
    Trichotomy(s[0], t[0]);
  }

  /** Two lists are equal once sorted exactly when they are permutations of each other. */
  lemma SameSorted(s: seq<Bytes>, t: seq<Bytes>)
    ensures SortStrings(s) == SortStrings(t) <==> multiset(s) == multiset(t)
  {
    if multiset(s) == multiset(t) {
      SortedUnique(SortStrings(s), SortStrings(t));
    }
  }

  lemma {:induction false} PrefixIsLeq(a: Bytes, b: Bytes)
    requires a <= b
    ensures Leq(a, b)
  {
    if a != [] {
      PrefixIsLeq(a[1..], b[1..]);
      assert a[1..] == b[1..] ==> a == [a[0]] + a[1..] && b == [b[0]] + b[1..];
    }
  }

  /** Everything that sorts between a string and one of its extensions extends it too. */
  lemma {:induction false} PrefixBetween(a: Bytes, b: Bytes, c: Bytes)
    requires a <= c
    requires Leq(a, b) && Leq(b, c)
    ensures a <= b
  {
    if a != [] && a != b && b != c {
      assert a[0] == b[0] == c[0];
      PrefixBetween(a[1..], b[1..], c[1..]);
      assert a == [a[0]] + a[1..] && b == [b[0]] + b[1..];
    }
  }

  /** In sorted order a collision shows up between neighbours. */
  lemma CollisionIsAdjacent(s: seq<Bytes>)
    requires Sorted(s)
    requires Collides(s)
    ensures exists i :: 1 <= i < |s| && s[i - 1] <= s[i]
  {
    var i, j :| 0 <= i < |s| && 0 <= j < |s| && i != j && s[i] <= s[j];
    if i < j {
      PrefixBetween(s[i], s[i + 1], s[j]);
      assert s[i + 1 - 1] <= s[i + 1];
    } else {
      PrefixIsLeq(s[i], s[j]);
      Trichotomy(s[i], s[j]);
      assert Leq(s[j], s[i]);
      PrefixBetween(s[j], s[j + 1], s[i]);
      assert s[j + 1 - 1] <= s[j + 1];
    }
  }

  lemma NeighboursCollide(s: seq<Bytes>, i: nat)
    requires 1 <= i < |s| && s[i - 1] <= s[i]
    ensures Collides(s)
  {
  }

  lemma PairAtPositions(s: seq<Bytes>, i: nat, j: nat)
    requires i < j < |s|
    ensures multiset{s[i], s[j]} <= multiset(s)
  {
    assert s == s[..i] + [s[i]] + s[i + 1..j] + [s[j]] + s[j + 1..];
  }

  lemma WithoutPosition(s: seq<Bytes>, i: nat)
    requires i < |s|
    ensures multiset(s) == multiset(s[..i] + s[i + 1..]) + multiset{s[i]}
  {
    assert s == s[..i] + [s[i]] + s[i + 1..];
  }

  lemma PositionElsewhere(s: seq<Bytes>, i: nat, b: Bytes) returns (j: nat)
    requires i < |s| && b in multiset(s[..i] + s[i + 1..])
    ensures j < |s| && j != i && s[j] == b
  {
    var rest := s[..i] + s[i + 1..];
    assert b in rest;
    var k :| 0 <= k < |rest| && rest[k] == b;
    j := if k < i then k else k + 1;
  }

  lemma PositionsOfPair(s: seq<Bytes>, a: Bytes, b: Bytes) returns (i: nat, j: nat)
    requires multiset{a, b} <= multiset(s)
    ensures i < |s| && j < |s| && i != j && s[i] == a && s[j] == b
  {
    assert a in multiset(s);
    i :| 0 <= i < |s| && s[i] == a;
    WithoutPosition(s, i);
    j := PositionElsewhere(s, i, b);
  }

  /** Collision depends only on which names are registered, not on their order. */
  lemma CollidesPermutation(s: seq<Bytes>, t: seq<Bytes>)
    requires multiset(s) == multiset(t)
    requires Collides(s)
    ensures Collides(t)
  {
    var i, j :| 0 <= i < |s| && 0 <= j < |s| && i != j && s[i] <= s[j];
    if i < j { PairAtPositions(s, i, j); } else { PairAtPositions(s, j, i); }
    var i', j' := PositionsOfPair(t, s[i], s[j]);
  }

  /** `assertNoPrefix`: panics exactly when some name is a prefix of another one. */
  method AssertNoPrefix(keys: seq<Bytes>) returns (panics: bool)
    ensures panics <==> Collides(keys)
  {
    hide SortStrings, Collides, Sorted;
    var sorted := SortStrings(keys);
    if Collides(keys) {
      CollidesPermutation(keys, sorted);
      CollisionIsAdjacent(sorted);
    }
    var i := 1;
    while i < |sorted|
      invariant 1 <= i
      invariant forall k :: 1 <= k < i && k < |sorted| ==> !(sorted[k - 1] <= sorted[k])
    {
      if sorted[i - 1] <= sorted[i] {
        NeighboursCollide(sorted, i);
        CollidesPermutation(sorted, keys);
        return true;
      }
      i := i + 1;
    }
    return false;
  }
}
