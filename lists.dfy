/**
 * The Python list operations the repository list is built from:
 * `list.index`, `list.remove`, and order-preserving de-duplication (the
 * `seen`-set loop, or `list(dict.fromkeys(...))`), with their properties.
 */
module Lists {

  predicate NoDuplicates<T(==)>(s: seq<T>) {
    forall i, j :: 0 <= i < j < |s| ==> s[i] != s[j]
  }

  /** Two lists without duplicates and without common elements concatenate to one without duplicates. */
  lemma NoDuplicatesAppend<T>(a: seq<T>, b: seq<T>)
    requires NoDuplicates(a) && NoDuplicates(b)
    requires forall x :: x in a ==> x !in b
    ensures NoDuplicates(a + b)
  {
    forall i, j | 0 <= i < j < |a + b|
      ensures (a + b)[i] != (a + b)[j]
    {
      if i < |a| && j >= |a| {
        assert (a + b)[i] in a;
        assert (a + b)[j] == b[j - |a|];
      }
    }
  }

  function Elements<T>(s: seq<T>): set<T> {
    set x | x in s
  }

  lemma ElementsSnoc<T>(s: seq<T>, x: T)
    ensures x in Elements(s) <==> x in s
    ensures Elements(s + [x]) == Elements(s) + {x}
  {
  }

  /** `s.index(x)`: the position of the first occurrence of `x`. */
  function IndexOf<T(==)>(s: seq<T>, x: T): (k: nat)
    requires x in s
    ensures k < |s| && s[k] == x && x !in s[..k]
    decreases |s|
  {
    if s[0] == x then 0
    else
      assert x in s[1..];
      1 + IndexOf(s[1..], x)
  }

  /**
   * The first occurrence of each element of `s`, in the order of those first
   * occurrences: the loop that appends an element when it is not yet `seen`.
   */
  function Dedup<T(==)>(s: seq<T>): (r: seq<T>)
    ensures NoDuplicates(r)
    ensures forall i :: 0 <= i < |r| ==> r[i] in s
    decreases |s|
  {
    if s == [] then []
    else
      var d := Dedup(s[..|s| - 1]);
      var x := s[|s| - 1];
      assert s == s[..|s| - 1] + [x];
      if x in d then d else d + [x]
  }

  /** The elements of `b` that do not occur in `a`, in the order of `b`. */
  function Without<T(==)>(b: seq<T>, a: seq<T>): seq<T>
    decreases |b|
  {
    if b == [] then []
    else
      var x := b[|b| - 1];
      Without(b[..|b| - 1], a) + (if x in a then [] else [x])
  }

  /** De-duplication keeps every element and adds none. */
  lemma {:induction false} DedupMember<T>(s: seq<T>, y: T)
    ensures y in Dedup(s) <==> y in s
    decreases |s|
  {
    if s != [] {
      var p := s[..|s| - 1];
      assert s == p + [s[|s| - 1]];
      DedupMember(p, y);
    }
  }

  /** `Without(b, a)` holds exactly the elements of `b` missing from `a`. */
  lemma {:induction false} WithoutMember<T>(b: seq<T>, a: seq<T>, y: T)
    ensures y in Without(b, a) <==> y in b && y !in a
    decreases |b|
  {
    if b != [] {
      var p := b[..|b| - 1];
      assert b == p + [b[|b| - 1]];
      WithoutMember(p, a, y);
    }
  }

  /** In a list without duplicates, the first occurrence of the element at `i` is `i`. */
  lemma IndexOfDistinct<T>(s: seq<T>, i: nat)
    requires NoDuplicates(s) && i < |s|
    ensures IndexOf(s, s[i]) == i
  {
  }

  /** The first occurrence of an element in a prefix is its first occurrence overall. */
  lemma {:induction false} IndexOfPrefix<T>(a: seq<T>, b: seq<T>, x: T)
    requires x in a
    ensures IndexOf(a + b, x) == IndexOf(a, x)
    decreases |a|
  {
    if a[0] != x {
      assert (a + b)[1..] == a[1..] + b;
      IndexOfPrefix(a[1..], b, x);
    }
  }

  /** An element absent from `a` first occurs in `a + [x]` at the end. */
  lemma IndexOfLast<T>(a: seq<T>, x: T)
    requires x !in a
    ensures IndexOf(a + [x], x) == |a|
  {
  }

  /** Dedup lists the elements by increasing position of first occurrence. */
  lemma {:induction false} DedupOrder<T>(s: seq<T>)
    ensures forall i, j :: 0 <= i < j < |Dedup(s)| ==> IndexOf(s, Dedup(s)[i]) < IndexOf(s, Dedup(s)[j])
    decreases |s|
  {
    if s != [] {
      var p, x := s[..|s| - 1], s[|s| - 1];
      assert s == p + [x];
      DedupOrder(p);
      var d := Dedup(p);
      forall y | y in d
        ensures IndexOf(s, y) == IndexOf(p, y) < |p|
      {
        IndexOfPrefix(p, [x], y);
      }
      if x !in d {
        DedupMember(p, x);
        IndexOfLast(p, x);
        var r := d + [x];
        forall i, j | 0 <= i < j < |r|
          ensures IndexOf(s, r[i]) < IndexOf(s, r[j])
        {
          assert r[i] in d;
          if j < |d| {
            assert r[j] in d;
          }
        }
      }
    }
  }

  /** One more element: appended exactly when it has not been seen before. */
  lemma DedupSnoc<T>(s: seq<T>, x: T)
    ensures Dedup(s + [x]) == if x in s then Dedup(s) else Dedup(s) + [x]
  {
    assert (s + [x])[..|s|] == s;
    DedupMember(s, x);
  }

  /** `Without` on a list with one more element: that element is kept when it is not in `a`. */
  lemma WithoutSnoc<T>(b: seq<T>, a: seq<T>, x: T)
    ensures Without(b + [x], a) == Without(b, a) + (if x in a then [] else [x])
  {
    assert (b + [x])[..|b|] == b;
  }

  lemma AppendAssoc<T>(a: seq<T>, b: seq<T>, c: seq<T>)
    ensures a + (b + c) == (a + b) + c
  {
  }

  /** The inductive step of `DedupAppend`: one more element at the end of `b`. */
  lemma DedupAppendStep<T>(a: seq<T>, b: seq<T>, x: T)
    requires Dedup(a + b) == Dedup(a) + Dedup(Without(b, a))
    ensures Dedup(a + (b + [x])) == Dedup(a) + Dedup(Without(b + [x], a))
  {
    var ab, w, da := a + b, Without(b, a), Dedup(a);
    assert a + (b + [x]) == ab + [x];
    DedupSnoc(ab, x);
    WithoutSnoc(b, a, x);
    if x in a {
      assert x in ab;
      assert Without(b + [x], a) == w + [];
      assert w + [] == w;
    } else {
      DedupSnoc(w, x);
      WithoutMember(b, a, x);
      if x !in w {
        AppendAssoc(da, Dedup(w), [x]);
      }
    }
  }

  /**
   * De-duplicating a concatenation keeps the de-duplicated first part in front
   * and appends, in their own order, the new elements of the second part.
   */
  lemma {:induction false} DedupAppend<T>(a: seq<T>, b: seq<T>)
    ensures Dedup(a + b) == Dedup(a) + Dedup(Without(b, a))
    decreases |b|
  {
    if b == [] {
      assert a + b == a;
      assert Dedup(a) + Dedup(Without(b, a)) == Dedup(a) + [];
    } else {
      var b' := b[..|b| - 1];
      assert b == b' + [b[|b| - 1]];
      DedupAppend(a, b');
      DedupAppendStep(a, b', b[|b| - 1]);
    }
  }

  /** Nothing of `b` is new when every element of `b` already occurs in `a`. */
  lemma {:induction false} WithoutCovered<T>(b: seq<T>, a: seq<T>)
    requires forall x :: x in b ==> x in a
    ensures Without(b, a) == []
    decreases |b|
  {
    if b != [] {
      var b' := b[..|b| - 1];
      assert forall x :: x in b' ==> x in b;
      WithoutCovered(b', a);
      assert b[|b| - 1] in b;
    }
  }

  /** Appending only elements already present changes nothing after de-duplication. */
  lemma DedupAbsorbs<T>(a: seq<T>, b: seq<T>)
    requires forall x :: x in b ==> x in a
    ensures Dedup(a + b) == Dedup(a)
  {
    DedupAppend(a, b);
    WithoutCovered(b, a);
    assert Dedup(a) + [] == Dedup(a);
  }

  /** A list without duplicates is its own de-duplication. */
  lemma {:induction false} DedupOfDistinct<T>(s: seq<T>)
    requires NoDuplicates(s)
    ensures Dedup(s) == s
    decreases |s|
  {
    if s != [] {
      var p := s[..|s| - 1];
      DedupOfDistinct(p);
      assert s == p + [s[|s| - 1]];
    }
  }

  /** De-duplicating twice is de-duplicating once. */
  lemma DedupIdempotent<T>(s: seq<T>)
    ensures Dedup(Dedup(s)) == Dedup(s)
  {
    DedupOfDistinct(Dedup(s));
  }

  /** A list without duplicates has as many elements as its element set. */
  lemma {:induction false} DistinctCardinality<T>(s: seq<T>)
    requires NoDuplicates(s)
    ensures |Elements(s)| == |s|
    decreases |s|
  {
    if s != [] {
      var p, x := s[..|s| - 1], s[|s| - 1];
      assert s == p + [x];
      DistinctCardinality(p);
      assert Elements(s) == Elements(p) + {x};
      assert x !in Elements(p);
    }
  }

  /** De-duplication keeps exactly one copy of each distinct element. */
  lemma DedupLength<T>(s: seq<T>)
    ensures |Dedup(s)| == |Elements(s)|
  {
    DistinctCardinality(Dedup(s));
    forall y
      ensures y in Elements(Dedup(s)) <==> y in Elements(s)
    {
      DedupMember(s, y);
    }
    assert Elements(Dedup(s)) == Elements(s);
  }

  /** `s.remove(x)`: the first occurrence of `x` deleted, everything else in order. */
  function RemoveFirst<T(==)>(s: seq<T>, x: T): (r: seq<T>)
    ensures x !in s ==> r == s
    ensures |r| == if x in s then |s| - 1 else |s|
    decreases |s|
  {
    if s == [] then []
    else if s[0] == x then s[1..]
    else
      assert x in s <==> x in s[1..];
      [s[0]] + RemoveFirst(s[1..], x)
  }

  /** `remove` takes away exactly one copy of `x` when there is one, and nothing else. */
  lemma {:induction false} RemoveFirstMultiset<T>(s: seq<T>, x: T)
    ensures multiset(RemoveFirst(s, x)) == multiset(s) - multiset{x}
    decreases |s|
  {
    if s != [] {
      assert s == [s[0]] + s[1..];
      if s[0] != x {
        RemoveFirstMultiset(s[1..], x);
      }
    }
  }

  /** What `remove` deletes is the element at `s.index(x)`. */
  lemma {:induction false} RemoveFirstAt<T>(s: seq<T>, x: T)
    requires x in s
    ensures RemoveFirst(s, x) == s[..IndexOf(s, x)] + s[IndexOf(s, x) + 1..]
    decreases |s|
  {
    if s[0] == x {
      assert IndexOf(s, x) == 0;
      assert s[..0] + s[1..] == s[1..];
    } else {
      var t := s[1..];
      assert x in t;
      RemoveFirstAt(t, x);
      var k := IndexOf(t, x);
      assert IndexOf(s, x) == 1 + k;
      assert RemoveFirst(s, x) == [s[0]] + RemoveFirst(t, x);
      assert s[..1 + k] == [s[0]] + t[..k];
      assert s[1 + k + 1..] == t[k + 1..];
    }
  }

  /** Removing an element that was just appended to a list lacking it restores the list. */
  lemma RemoveAppended<T>(s: seq<T>, x: T)
    requires x !in s
    ensures RemoveFirst(s + [x], x) == s
  {
    IndexOfLast(s, x);
    RemoveFirstAt(s + [x], x);
    assert (s + [x])[..|s|] == s;
  }

  /** Removing from a list without duplicates leaves no copy behind and no duplicate. */
  lemma RemoveFromDistinct<T>(s: seq<T>, x: T)
    requires NoDuplicates(s)
    ensures NoDuplicates(RemoveFirst(s, x))
    ensures x !in RemoveFirst(s, x)
  {
    if x in s {
      var k := IndexOf(s, x);
      var r := RemoveFirst(s, x);
      RemoveFirstAt(s, x);
      assert |r| == |s| - 1;
      assert forall i :: 0 <= i < |r| ==> r[i] == s[if i < k then i else i + 1];
      forall i, j | 0 <= i < j < |r|
        ensures r[i] != r[j]
      {
        assert r[i] == s[if i < k then i else i + 1];
        assert r[j] == s[if j < k then j else j + 1];
      }
      forall i | 0 <= i < |r|
        ensures r[i] != x
      {
        assert r[i] == s[if i < k then i else i + 1];
      }
    }
  }
}
