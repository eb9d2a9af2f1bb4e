/**
 Python's `sorted` with a key: a stable sort. A stable sort is determined by two facts, the
 order of the result and the order kept inside each class of equal keys, so everything the
 callers rely on (independence of input order, commuting with a filter) is proved from those.
 */
module StableSort {
  import opened Sequences

  ghost predicate TotalPreorder<T(!new)>(le: (T, T) -> bool) {
    && (forall x, y :: le(x, y) || le(y, x))
    && (forall x, y, z :: le(x, y) && le(y, z) ==> le(x, z))
  }

  ghost predicate Sorted<T>(le: (T, T) -> bool, xs: seq<T>) {
    forall i, j :: 0 <= i < j < |xs| ==> le(xs[i], xs[j])
  }

  /** The elements whose key equals the key of `x`, in order. */
  function EqualKeys<T>(le: (T, T) -> bool, x: T, xs: seq<T>): seq<T> {
    if xs == [] then []
    else if le(x, xs[0]) && le(xs[0], x) then [xs[0]] + EqualKeys(le, x, xs[1..])
    else EqualKeys(le, x, xs[1..])
  }

  lemma {:induction false} ClassMember<T>(le: (T, T) -> bool, x: T, xs: seq<T>, y: T)
    ensures y in EqualKeys(le, x, xs) <==> y in xs && le(x, y) && le(y, x)
  {
    if xs == [] {
    } else {
      ClassMember(le, x, xs[1..], y);
      assert y in xs <==> y == xs[0] || y in xs[1..];
    }
  }

  function Insert<T>(le: (T, T) -> bool, x: T, ys: seq<T>): (r: seq<T>)
    ensures multiset(r) == multiset{x} + multiset(ys)
  {
    if ys == [] then [x]
    else if le(x, ys[0]) then
      assert [x] + ys == [x] + ([ys[0]] + ys[1..]);
      [x] + ys
    else
      assert ys == [ys[0]] + ys[1..];
      [ys[0]] + Insert(le, x, ys[1..])
  }

  function Sort<T>(le: (T, T) -> bool, xs: seq<T>): (r: seq<T>)
    ensures multiset(r) == multiset(xs)
  {
    if xs == [] then [] else
      assert xs == [xs[0]] + xs[1..];
      Insert(le, xs[0], Sort(le, xs[1..]))
  }

  lemma {:induction false} SortMember<T>(le: (T, T) -> bool, xs: seq<T>, x: T)
    ensures x in Sort(le, xs) <==> x in xs
  {
    assert x in Sort(le, xs) <==> x in multiset(Sort(le, xs));
    assert x in xs <==> x in multiset(xs);
  }

  lemma {:induction false} SortMembers<T(!new)>(le: (T, T) -> bool, xs: seq<T>)
    ensures |Sort(le, xs)| == |xs|
    ensures forall x :: x in Sort(le, xs) <==> x in xs
  {
    assert |multiset(Sort(le, xs))| == |multiset(xs)|;
    forall x
      ensures x in Sort(le, xs) <==> x in xs
    {
      SortMember(le, xs, x);
    }
  }

  lemma {:induction false} SortedAppend<T>(le: (T, T) -> bool, a: seq<T>, b: seq<T>)
    requires Sorted(le, a) && Sorted(le, b) && forall x, y :: x in a && y in b ==> le(x, y)
    ensures Sorted(le, a + b)
  {
    var s := a + b;
    forall i, j | 0 <= i < j < |s|
      ensures le(s[i], s[j])
    {
      if i < |a| <= j {
        assert a[i] in a && b[j - |a|] in b;
      }
    }
  }

  lemma {:induction false} SortedCons<T>(le: (T, T) -> bool, x: T, ys: seq<T>)
    requires Sorted(le, ys) && forall y :: y in ys ==> le(x, y)
    ensures Sorted(le, [x] + ys)
  {
  }

  lemma {:induction false} InsertSorted<T(!new)>(le: (T, T) -> bool, x: T, ys: seq<T>)
    requires TotalPreorder(le) && Sorted(le, ys)
    ensures Sorted(le, Insert(le, x, ys))
  {
    if ys == [] {
    } else {
      if le(x, ys[0]) {
        forall y | y in ys
          ensures le(x, y)
        {
          assert y == ys[0] || le(ys[0], y);
        }
        SortedCons(le, x, ys);
      } else {
        InsertSorted(le, x, ys[1..]);
        var t := Insert(le, x, ys[1..]);
        forall y | y in t
          ensures le(ys[0], y)
        {
          assert y in multiset(t);
          assert y == x || y in ys[1..];
        }
        SortedCons(le, ys[0], t);
      }
    }
  }

  lemma {:induction false} SortSorted<T(!new)>(le: (T, T) -> bool, xs: seq<T>)
    requires TotalPreorder(le)
    ensures Sorted(le, Sort(le, xs))
  {
    if xs == [] {
    } else {
      SortSorted(le, xs[1..]);
      InsertSorted(le, xs[0], Sort(le, xs[1..]));
    }
  }

  lemma {:induction false} InsertClass<T(!new)>(le: (T, T) -> bool, k: T, x: T, ys: seq<T>)
    requires TotalPreorder(le)
    ensures EqualKeys(le, k, Insert(le, x, ys)) == EqualKeys(le, k, [x] + ys)
  {
    assert ([x] + ys)[1..] == ys;
    if ys != [] && !le(x, ys[0]) {
      InsertClass(le, k, x, ys[1..]);
      assert ([x] + ys[1..])[1..] == ys[1..];
      assert Insert(le, x, ys)[1..] == Insert(le, x, ys[1..]);
    }
  }

  /** Stability: elements with equal keys keep their order. */
  lemma {:induction false} SortClass<T(!new)>(le: (T, T) -> bool, k: T, xs: seq<T>)
    requires TotalPreorder(le)
    ensures EqualKeys(le, k, Sort(le, xs)) == EqualKeys(le, k, xs)
  {
    if xs == [] {
    } else {
      SortClass(le, k, xs[1..]);
      InsertClass(le, k, xs[0], Sort(le, xs[1..]));
      assert ([xs[0]] + Sort(le, xs[1..]))[1..] == Sort(le, xs[1..]);
    }
  }

  lemma {:induction false} HeadInClass<T(!new)>(le: (T, T) -> bool, xs: seq<T>)
    requires TotalPreorder(le) && xs != []
    ensures EqualKeys(le, xs[0], xs) != [] && EqualKeys(le, xs[0], xs)[0] == xs[0]
  {
  }

  /** The heads are below each other, so they head the same class. */
  lemma {:induction false} SameHead<T(!new)>(le: (T, T) -> bool, a: seq<T>, b: seq<T>)
    requires TotalPreorder(le) && Sorted(le, a) && Sorted(le, b) && a != [] && b != []
    requires EqualKeys(le, a[0], a) == EqualKeys(le, a[0], b)
    requires EqualKeys(le, b[0], a) == EqualKeys(le, b[0], b)
    ensures a[0] == b[0]
  {
    HeadInClass(le, a);
    HeadInClass(le, b);
    ClassMember(le, a[0], b, a[0]);
    ClassMember(le, b[0], a, b[0]);
    assert a[0] in b && b[0] in a;
    assert le(a[0], b[0]) && le(b[0], a[0]);
    assert EqualKeys(le, a[0], b)[0] == b[0];
  }

  lemma {:induction false} ClassOfTails<T(!new)>(le: (T, T) -> bool, k: T, x: T, a: seq<T>, b: seq<T>)
    requires EqualKeys(le, k, [x] + a) == EqualKeys(le, k, [x] + b)
    ensures EqualKeys(le, k, a) == EqualKeys(le, k, b)
  {
    assert ([x] + a)[1..] == a && ([x] + b)[1..] == b;
    if le(k, x) && le(x, k) {
      assert ([x] + EqualKeys(le, k, a))[1..] == EqualKeys(le, k, a);
      assert ([x] + EqualKeys(le, k, b))[1..] == EqualKeys(le, k, b);
    }
  }

  ghost predicate SameClasses<T(!new)>(le: (T, T) -> bool, a: seq<T>, b: seq<T>) {
    forall k :: k in a || k in b ==> EqualKeys(le, k, a) == EqualKeys(le, k, b)
  }

  lemma {:induction false} EmptyTogether<T(!new)>(le: (T, T) -> bool, a: seq<T>, b: seq<T>)
    requires TotalPreorder(le) && SameClasses(le, a, b)
    ensures a == [] <==> b == []
  {
    if a != [] {
      HeadInClass(le, a);
    }
    if b != [] {
      HeadInClass(le, b);
    }
  }

  lemma {:induction false} TailsSameClasses<T(!new)>(le: (T, T) -> bool, x: T, a: seq<T>, b: seq<T>)
    requires SameClasses(le, [x] + a, [x] + b)
    ensures SameClasses(le, a, b)
  {
    forall k | k in a || k in b
      ensures EqualKeys(le, k, a) == EqualKeys(le, k, b)
    {
      assert k in [x] + a || k in [x] + b;
      ClassOfTails(le, k, x, a, b);
    }
  }

  /** Two sorted lists that agree on every class of equal keys are the same list. */
  lemma {:induction false} SortedUnique<T(!new)>(le: (T, T) -> bool, a: seq<T>, b: seq<T>)
    requires TotalPreorder(le) && Sorted(le, a) && Sorted(le, b)
    requires SameClasses(le, a, b)
    ensures a == b
  {
    EmptyTogether(le, a, b);
    if a == [] {
    } else {
      SameHead(le, a, b);
      assert a == [a[0]] + a[1..] && b == [a[0]] + b[1..];
      TailsSameClasses(le, a[0], a[1..], b[1..]);
      SortedUnique(le, a[1..], b[1..]);
    }
  }

  /** The stable sort sees its input only through the classes of equal keys. */
  lemma {:induction false} SortFromClasses<T(!new)>(le: (T, T) -> bool, a: seq<T>, b: seq<T>)
    requires TotalPreorder(le)
    requires SameClasses(le, a, b)
    ensures Sort(le, a) == Sort(le, b)
  {
    SortSorted(le, a);
    SortSorted(le, b);
    forall k | k in Sort(le, a) || k in Sort(le, b)
      ensures EqualKeys(le, k, Sort(le, a)) == EqualKeys(le, k, Sort(le, b))
    {
      SortMember(le, a, k);
      SortMember(le, b, k);
      SortClass(le, k, a);
      SortClass(le, k, b);
    }
    SortedUnique(le, Sort(le, a), Sort(le, b));
  }

  lemma {:induction false} ClassFilter<T>(le: (T, T) -> bool, k: T, p: T -> bool, xs: seq<T>)
    ensures EqualKeys(le, k, Filter(p, xs)) == Filter(p, EqualKeys(le, k, xs))
  {
    if xs == [] {
    } else {
      ClassFilter(le, k, p, xs[1..]);
      if p(xs[0]) {
        assert Filter(p, xs)[1..] == Filter(p, xs[1..]);
      }
      if le(k, xs[0]) && le(xs[0], k) {
        assert EqualKeys(le, k, xs)[1..] == EqualKeys(le, k, xs[1..]);
      }
    }
  }

  lemma {:induction false} FilterSorted<T>(le: (T, T) -> bool, p: T -> bool, xs: seq<T>)
    requires Sorted(le, xs)
    ensures Sorted(le, Filter(p, xs))
  {
    if xs == [] {
    } else {
      FilterSorted(le, p, xs[1..]);
      var t := Filter(p, xs[1..]);
      forall y | y in t
        ensures le(xs[0], y)
      {
        FilterMember(p, xs[1..], y);
        var j :| 0 <= j < |xs[1..]| && xs[1..][j] == y;
        assert le(xs[0], xs[j + 1]);
      }
      SortedCons(le, xs[0], t);
    }
  }

  /** Filtering before the sort or after it gives the same list. */
  lemma {:induction false} SortFilter<T(!new)>(le: (T, T) -> bool, p: T -> bool, xs: seq<T>)
    requires TotalPreorder(le)
    ensures Filter(p, Sort(le, xs)) == Sort(le, Filter(p, xs))
  {
    var a, b := Filter(p, Sort(le, xs)), Sort(le, Filter(p, xs));
    SortSorted(le, xs);
    FilterSorted(le, p, Sort(le, xs));
    SortSorted(le, Filter(p, xs));
    forall k | k in a || k in b
      ensures EqualKeys(le, k, a) == EqualKeys(le, k, b)
    {
      ClassFilter(le, k, p, Sort(le, xs));
      SortClass(le, k, xs);
      SortClass(le, k, Filter(p, xs));
      ClassFilter(le, k, p, xs);
    }
    SortedUnique(le, a, b);
  }

  lemma {:induction false} ClassAppend<T>(le: (T, T) -> bool, k: T, a: seq<T>, b: seq<T>)
    ensures EqualKeys(le, k, a + b) == EqualKeys(le, k, a) + EqualKeys(le, k, b)
  {
    if a == [] {
      assert a + b == b;
    } else {
      assert (a + b)[1..] == a[1..] + b;
      ClassAppend(le, k, a[1..], b);
    }
  }

  /** Sorting by the key of an image is sorting the images. */
  lemma {:induction false} SortMap<T(!new), U(!new)>(f: T -> U, leT: (T, T) -> bool, leU: (U, U) -> bool, xs: seq<T>)
    requires forall x, y :: leT(x, y) == leU(f(x), f(y))
    ensures Map(f, Sort(leT, xs)) == Sort(leU, Map(f, xs))
  {
    if xs == [] {
    } else {
      SortMap(f, leT, leU, xs[1..]);
      InsertMap(f, leT, leU, xs[0], Sort(leT, xs[1..]));
      assert Map(f, xs)[1..] == Map(f, xs[1..]);
    }
  }

  lemma {:induction false} InsertMap<T(!new), U(!new)>(f: T -> U, leT: (T, T) -> bool, leU: (U,
      U) -> bool, x: T, ys: seq<T>)
    requires forall x, y :: leT(x, y) == leU(f(x), f(y))
    ensures Map(f, Insert(leT, x, ys)) == Insert(leU, f(x), Map(f, ys))
  {
    if ys == [] {
      assert [x][1..] == [];
    } else {
      assert Map(f, ys)[1..] == Map(f, ys[1..]);
      if leT(x, ys[0]) {
        assert ([x] + ys)[1..] == ys;
      } else {
        InsertMap(f, leT, leU, x, ys[1..]);
        assert Insert(leT, x, ys)[1..] == Insert(leT, x, ys[1..]);
      }
    }
  }
}
