/**
 The order of struct members: `_version_order_funcs` sorts virtual methods by the version that
 added them, and `get_virtual_funcs` skips the sort when no method mentions a version.
 */
module MemberOrder {
  import opened Attributes
  import opened ClassVersions
  import opened Options
  import opened PythonStrings
  import opened Sequences
  import opened StableSort
  import opened VersionText

  predicate AddedLe(a: Method, b: Method) {
    a.span.VersionAdded() <= b.span.VersionAdded()
  }

  predicate AddedBy(m: Method, v: int) {
    m.span.VersionAdded() <= v
  }

  /** Members ordered by the version that added them, up to `maxVersion` if given. */
  function Ordered(methods: seq<Method>, maxVersion: Option<int>): seq<Method> {
    match maxVersion
    case None => Sort(AddedLe, methods)
    case Some(v) => Filter((m: Method) => AddedBy(m, v), Sort(AddedLe, methods))
  }

  lemma {:induction false} AddedLeIsTotal()
    ensures TotalPreorder(AddedLe)
  {
  }

  // ----- _version_order_funcs -----

  /** Stands for all methods added at `k`. */
  function KeyOf(k: nat): Method {
    Method("", Span(Some(k), None))
  }

  function Bucket(k: nat, methods: seq<Method>): seq<Method> {
    EqualKeys(AddedLe, KeyOf(k), methods)
  }

  function Buckets(ks: seq<nat>, methods: seq<Method>): seq<Method> {
    if ks == [] then [] else Bucket(ks[0], methods) + Buckets(ks[1..], methods)
  }

  lemma {:induction false} BucketsAppend(a: seq<nat>, b: seq<nat>, methods: seq<Method>)
    ensures Buckets(a + b, methods) == Buckets(a, methods) + Buckets(b, methods)
  {
    if a == [] {
      assert a + b == b;
    } else {
      assert (a + b)[1..] == a[1..] + b;
      BucketsAppend(a[1..], b, methods);
    }
  }

  lemma {:induction false} ClassOfBucket(x: Method, k: nat, methods: seq<Method>)
    ensures EqualKeys(AddedLe, x, Bucket(k, methods))
            == if x.span.VersionAdded() == k then EqualKeys(AddedLe, x, methods) else []
  {
    if methods == [] {
    } else {
      ClassOfBucket(x, k, methods[1..]);
      if methods[0].span.VersionAdded() == k {
        assert Bucket(k, methods)[1..] == Bucket(k, methods[1..]);
      }
    }
  }

  lemma {:induction false} ClassOfBuckets(x: Method, ks: seq<nat>, methods: seq<Method>)
    requires StrictlyAscending(ks)
    ensures EqualKeys(AddedLe, x, Buckets(ks, methods))
            == if x.span.VersionAdded() in ks then EqualKeys(AddedLe, x, methods) else []
  {
    if ks == [] {
    } else {
      ClassAppend(AddedLe, x, Bucket(ks[0], methods), Buckets(ks[1..], methods));
      ClassOfBucket(x, ks[0], methods);
      ClassOfBuckets(x, ks[1..], methods);
    }
  }

  lemma {:induction false} BucketMember(k: nat, methods: seq<Method>, m: Method)
    ensures m in Bucket(k, methods) <==> m in methods && m.span.VersionAdded() == k
  {
    ClassMember(AddedLe, KeyOf(k), methods, m);
  }

  lemma {:induction false} BucketsMember(ks: seq<nat>, methods: seq<Method>, m: Method)
    ensures m in Buckets(ks, methods) <==> m in methods && m.span.VersionAdded() in ks
  {
    if ks == [] {
    } else {
      BucketMember(ks[0], methods, m);
      BucketsMember(ks[1..], methods, m);
      assert m in Buckets(ks, methods) <==> m in Bucket(ks[0], methods) || m in Buckets(ks[1..], methods);
      assert m.span.VersionAdded() in ks <==> m.span.VersionAdded() in [ks[0]] + ks[1..];
    }
  }

  lemma {:induction false} BucketsSorted(ks: seq<nat>, methods: seq<Method>)
    requires StrictlyAscending(ks)
    ensures Sorted(AddedLe, Buckets(ks, methods))
  {
    if ks == [] {
    } else {
      BucketsSorted(ks[1..], methods);
      var first, rest := Bucket(ks[0], methods), Buckets(ks[1..], methods);
      forall x | x in first
        ensures x.span.VersionAdded() == ks[0]
      {
        BucketMember(ks[0], methods, x);
      }
      forall y | y in rest
        ensures y.span.VersionAdded() > ks[0]
      {
        BucketsMember(ks[1..], methods, y);
      }
      SortedAppend(AddedLe, first, rest);
    }
  }

  lemma {:induction false} FilterClassConstant(x: Method, v: int, xs: seq<Method>)
    ensures Filter((m: Method) => AddedBy(m, v), EqualKeys(AddedLe, x, xs))
            == if AddedBy(x, v) then EqualKeys(AddedLe, x, xs) else []
  {
    var p := (m: Method) => AddedBy(m, v);
    forall y | y in EqualKeys(AddedLe, x, xs)
      ensures p(y) == AddedBy(x, v)
    {
      ClassMember(AddedLe, x, xs, y);
    }
    if AddedBy(x, v) {
      FilterAll(p, EqualKeys(AddedLe, x, xs));
    } else {
      FilterNone(p, EqualKeys(AddedLe, x, xs));
    }
  }

  /** Concatenating the buckets of all versions up to `v`, in order, is the stable sort cut at `v`. */
  lemma {:induction false} BucketsAreOrdered(ks: seq<nat>, methods: seq<Method>, v: int)
    requires StrictlyAscending(ks)
    requires forall m :: m in methods ==> (m.span.VersionAdded() in ks <==> AddedBy(m, v))
    ensures Buckets(ks, methods) == Ordered(methods, Some(v))
  {
    var p := (m: Method) => AddedBy(m, v);
    AddedLeIsTotal();
    SortFilter(AddedLe, p, methods);
    SortSorted(AddedLe, Filter(p, methods));
    BucketsSorted(ks, methods);
    var sorted := Sort(AddedLe, Filter(p, methods));
    forall x | x in Buckets(ks, methods) || x in sorted
      ensures EqualKeys(AddedLe, x, Buckets(ks, methods)) == EqualKeys(AddedLe, x, sorted)
    {
      BucketsMember(ks, methods, x);
      SortMember(AddedLe, Filter(p, methods), x);
      FilterMember(p, methods, x);
      ClassOfBuckets(x, ks, methods);
      SortClass(AddedLe, x, Filter(p, methods));
      ClassFilter(AddedLe, x, p, methods);
      FilterClassConstant(x, v, methods);
    }
    SortedUnique(AddedLe, Buckets(ks, methods), sorted);
  }

  function MaxAdded(methods: seq<Method>): (r: nat)
    ensures forall m :: m in methods ==> AddedBy(m, r)
  {
    if methods == [] then 0 else
      var rest := MaxAdded(methods[1..]);
      assert methods == [methods[0]] + methods[1..];
      if methods[0].span.VersionAdded() > rest then methods[0].span.VersionAdded() else rest
  }

  /** Without a limit everything is listed. */
  lemma {:induction false} UnlimitedOrder(methods: seq<Method>, v: int)
    requires forall m :: m in methods ==> AddedBy(m, v)
    ensures Ordered(methods, None) == Ordered(methods, Some(v))
  {
    SortMembers(AddedLe, methods);
    FilterAll((m: Method) => AddedBy(m, v), Sort(AddedLe, methods));
  }

  /** What the dictionary of `_version_order_funcs` holds after the first loop. */
  ghost predicate Bucketed(versions: map<nat, seq<Method>>, methods: seq<Method>) {
    && 0 in versions
    && (forall m :: m in methods ==> m.span.VersionAdded() in versions)
    && (forall k :: k in versions ==> versions[k] == Bucket(k, methods))
  }

  lemma {:induction false} BucketAppend(k: nat, methods: seq<Method>, m: Method)
    ensures Bucket(k, methods + [m]) == Bucket(k, methods) + if k == m.span.VersionAdded() then [m] else []
  {
    ClassAppend(AddedLe, KeyOf(k), methods, [m]);
    assert [m][1..] == [];
  }

  lemma {:induction false} BucketedStep(versions: map<nat, seq<Method>>, methods: seq<Method>, m: Method)
    requires Bucketed(versions, methods)
    ensures var added := m.span.VersionAdded();
            var bucket := if added in versions then versions[added] else [];
            Bucketed(versions[added := bucket + [m]], methods + [m])
  {
    var added := m.span.VersionAdded();
    if Bucket(added, methods) != [] {
      BucketMember(added, methods, Bucket(added, methods)[0]);
    }
    var bucket := if added in versions then versions[added] else [];
    var versions' := versions[added := bucket + [m]];
    forall k | k in versions'
      ensures versions'[k] == Bucket(k, methods + [m])
    {
      BucketAppend(k, methods, m);
    }
  }

  /** The buckets of the keys up to the limit make up the ordered list. */
  lemma {:induction false} KeysCut(versions: map<nat, seq<Method>>, keys: seq<nat>, j: nat,
                                   funcs: seq<Method>, v: int)
    requires Bucketed(versions, funcs) && StrictlyAscending(keys)
    requires forall k :: k in keys <==> k in versions.Keys
    requires j <= |keys| && (forall i :: 0 <= i < j ==> keys[i] <= v) && (j < |keys| ==> v < keys[j])
    ensures Buckets(keys[..j], funcs) == Ordered(funcs, Some(v))
  {
    forall m | m in funcs
      ensures m.span.VersionAdded() in keys[..j] <==> AddedBy(m, v)
    {
      var i :| 0 <= i < |keys| && keys[i] == m.span.VersionAdded();
    }
    BucketsAreOrdered(keys[..j], funcs, v);
  }

  lemma {:induction false} AllKeys(versions: map<nat, seq<Method>>, keys: seq<nat>, funcs: seq<Method>)
    requires Bucketed(versions, funcs) && StrictlyAscending(keys)
    requires forall k :: k in keys <==> k in versions.Keys
    ensures Buckets(keys[..|keys|], funcs) == Ordered(funcs, None)
  {
    assert 0 in keys;
    var last := keys[|keys| - 1];
    assert forall i :: 0 <= i < |keys| ==> keys[i] <= last;
    var v := MaxAdded(funcs) + last;
    assert forall m :: m in funcs ==> AddedBy(m, v);
    UnlimitedOrder(funcs, v);
    KeysCut(versions, keys, |keys|, funcs, v);
  }

  lemma {:induction false} BucketsStep(keys: seq<nat>, j: nat, funcs: seq<Method>)
    requires j < |keys|
    ensures Buckets(keys[..j + 1], funcs) == Buckets(keys[..j], funcs) + Bucket(keys[j], funcs)
  {
    assert keys[..j + 1] == keys[..j] + [keys[j]];
    BucketsAppend(keys[..j], [keys[j]], funcs);
    assert [keys[j]][1..] == [];
    assert Bucket(keys[j], funcs) + [] == Bucket(keys[j], funcs);
  }

  /** `_version_order_funcs`: buckets by version, then concatenation up to the limit. */
  method VersionOrderFuncs(funcs: seq<Method>, maxVersion: Option<int>) returns (result: seq<Method>)
    ensures result == Ordered(funcs, maxVersion)
  {
    var versions: map<nat, seq<Method>> := map[0 := []];
    assert Bucketed(versions, funcs[..0]);
    hide Bucketed, Ordered;
    for i := 0 to |funcs|
      invariant Bucketed(versions, funcs[..i])
    {
      var func := funcs[i];
      BucketedStep(versions, funcs[..i], func);
      assert funcs[..i + 1] == funcs[..i] + [func];
      var added := if func.span.HasVersion() then func.span.VersionAdded() else 0;
      if added !in versions {
        assert [] + [func] == [func];
        versions := versions[added := [func]];
      } else {
        versions := versions[added := versions[added] + [func]];
      }
    }
    assert funcs[..|funcs|] == funcs;
    result := ConcatBuckets(versions, funcs, maxVersion);
  }

  method ConcatBuckets(versions: map<nat, seq<Method>>, ghost funcs: seq<Method>, maxVersion: Option<int>)
    returns (result: seq<Method>)
    requires Bucketed(versions, funcs)
    ensures result == Ordered(funcs, maxVersion)
  {
    result := [];
    var keys := Ascending(versions.Keys);
    for j := 0 to |keys|
      invariant result == Buckets(keys[..j], funcs)
      invariant maxVersion.Some? ==> forall i :: 0 <= i < j ==> keys[i] <= maxVersion.value
    {
      var version := keys[j];
      if maxVersion.Some? && version > maxVersion.value {
        KeysCut(versions, keys, j, funcs, maxVersion.value);
        return;
      }
      BucketsStep(keys, j, funcs);
      result := result + versions[version];
    }
    if maxVersion.Some? {
      KeysCut(versions, keys, |keys|, funcs, maxVersion.value);
    } else {
      AllKeys(versions, keys, funcs);
    }
  }

  // ----- Layout compatibility -----

  lemma {:induction false} SortedCut(xs: seq<Method>, v: int)
    requires Sorted(AddedLe, xs)
    ensures Filter((m: Method) => AddedBy(m, v), xs) <= xs
  {
    var p := (m: Method) => AddedBy(m, v);
    if xs == [] {
    } else {
      if AddedBy(xs[0], v) {
        SortedCut(xs[1..], v);
        assert Filter(p, xs) == [xs[0]] + Filter(p, xs[1..]);
      } else {
        assert forall i :: 0 <= i < |xs| ==> AddedLe(xs[0], xs[i]);
        FilterNone(p, xs);
      }
    }
  }

  lemma {:induction false} OrderedIsPrefix(methods: seq<Method>, v: int)
    ensures Ordered(methods, Some(v)) <= Ordered(methods, None)
  {
    AddedLeIsTotal();
    SortSorted(AddedLe, methods);
    SortedCut(Sort(AddedLe, methods), v);
  }

  /** A later version only appends members: the earlier member list is a prefix of the later one. */
  lemma {:induction false} LayoutGrowsAtTheEnd(methods: seq<Method>, v: int, v': int)
    requires v <= v'
    ensures Ordered(methods, Some(v)) <= Ordered(methods, Some(v'))
  {
    AddedLeIsTotal();
    var sorted := Ordered(methods, Some(v'));
    SortSorted(AddedLe, methods);
    FilterSorted(AddedLe, (m: Method) => AddedBy(m, v'), Sort(AddedLe, methods));
    SortedCut(sorted, v);
    FilterFilter((m: Method) => AddedBy(m, v), (m: Method) => AddedBy(m, v'), Sort(AddedLe, methods));
  }

  /** The members that exist at `v`, in layout order. */
  function ExistingOrdered(methods: seq<Method>, v: int): seq<Method> {
    Filter((m: Method) => m.span.ExistsAt(v), Ordered(methods, Some(v)))
  }

  lemma {:induction false} OrderedMember(methods: seq<Method>, v: int, m: Method)
    ensures m in Ordered(methods, Some(v)) <==> m in methods && AddedBy(m, v)
  {
    FilterMember((x: Method) => AddedBy(x, v), Sort(AddedLe, methods), m);
    SortMember(AddedLe, methods, m);
  }

  lemma {:induction false} ExistingOrderedMember(methods: seq<Method>, v: nat, m: Method)
    ensures m in ExistingOrdered(methods, v) <==> m in methods && m.span.ExistsAt(v)
  {
    FilterMember((x: Method) => x.span.ExistsAt(v), Ordered(methods, Some(v)), m);
    OrderedMember(methods, v, m);
  }

  /** No method that exists at `v` is gone at `v'`. */
  ghost predicate AllKept(methods: seq<Method>, v: nat, v': nat) {
    forall m :: m in methods && m.span.ExistsAt(v) ==> !m.span.RemovedAt(v')
  }

  lemma {:induction false} KeptGivesPrefix(methods: seq<Method>, v: nat, v': nat)
    requires v <= v' && AllKept(methods, v, v')
    ensures ExistingOrdered(methods, v) <= ExistingOrdered(methods, v')
  {
    var short, long := Ordered(methods, Some(v)), Ordered(methods, Some(v'));
    var p, p' := (m: Method) => m.span.ExistsAt(v), (m: Method) => m.span.ExistsAt(v');
    LayoutGrowsAtTheEnd(methods, v, v');
    var rest := long[|short|..];
    assert long == short + rest;
    FilterAppend(p', short, rest);
    forall m | m in short
      ensures p(m) == p'(m)
    {
      OrderedMember(methods, v, m);
    }
    FilterAgree(p, p', short);
  }

  /** Existing members stay in place from `v` to `v'` exactly when none of them is removed in between. */
  lemma {:induction false} ExistingLayoutPrefixIff(methods: seq<Method>, v: nat, v': nat)
    requires v <= v'
    ensures ExistingOrdered(methods, v) <= ExistingOrdered(methods, v') <==> AllKept(methods, v, v')
  {
    if AllKept(methods, v, v') {
      KeptGivesPrefix(methods, v, v');
    } else {
      var m :| m in methods && m.span.ExistsAt(v) && m.span.RemovedAt(v');
      ExistingOrderedMember(methods, v, m);
      ExistingOrderedMember(methods, v', m);
      if ExistingOrdered(methods, v) <= ExistingOrdered(methods, v') {
        PrefixMember(ExistingOrdered(methods, v), ExistingOrdered(methods, v'), m);
      }
    }
  }

  // ----- get_virtual_funcs -----

  /** A virtual method with the raw text of its metadata comment. */
  datatype RawMethod = RawMethod(name: string, attrib: string)

  /** `_get_version_attrib` on one key: absent, a number, or None where the source raises. */
  function VersionAttrib(d: Dict, key: string): Option<Option<nat>> {
    match Lookup(d, key)
    case None => Some(None)
    case Some(One(Text(t))) =>
      var n := AsNumeric(t);
      if n.None? then None else Some(n)
    case Some(_) => None
  }

  function SpanOf(d: Dict): Option<Span> {
    var added, removed := VersionAttrib(d, "added"), VersionAttrib(d, "removed");
    if added.None? || removed.None? then None else Some(Span(added.value, removed.value))
  }

  function ParseMethod(raw: RawMethod): Option<Method> {
    var d := StrToDict(raw.attrib);
    if d.None? then None else
      var span := SpanOf(d.value);
      if span.None? then None else Some(Method(raw.name, span.value))
  }

  /** Every declaration parses and every version it names is valid. */
  predicate Parses(raws: seq<RawMethod>) {
    forall i :: 0 <= i < |raws| ==> ParseMethod(raws[i]).Some?
  }

  function ParseMethods(raws: seq<RawMethod>): (r: seq<Method>)
    requires Parses(raws)
    ensures |r| == |raws|
    ensures forall i :: 0 <= i < |raws| ==> r[i] == ParseMethod(raws[i]).value
  {
    if raws == [] then [] else [ParseMethod(raws[0]).value] + ParseMethods(raws[1..])
  }

  /** At most one value for a key, and that one a valid version. */
  predicate VersionValues(vs: seq<Value>) {
    vs == [] || (|vs| == 1 && vs[0].Text? && AsNumeric(vs[0].text).Some?)
  }

  /** The number of the one value, if there is one. */
  function NumberOf(vs: seq<Value>): Option<nat>
    requires VersionValues(vs)
  {
    if vs == [] then None else AsNumeric(vs[0].text)
  }

  lemma {:induction false} ListsAreLong(text: string, key: string)
    requires Pairs(text).Some?
    ensures var e := Lookup(StrToDict(text).value, key);
            e.Some? && e.value.Many? ==> |e.value.values| >= 2
  {
    PairsPlain(text);
    AddAllProper([], Pairs(text).value);
    LookupProper(StrToDict(text).value, key);
  }

  lemma {:induction false} LookupProper(d: Dict, key: string)
    requires Proper(d)
    ensures Lookup(d, key).Some? && Lookup(d, key).value.Many? ==> |Lookup(d, key).value.values| >= 2
  {
    if d == [] {
    } else {
      assert d == [d[0]] + d[1..];
      ProperCons(d[0], d[1..]);
      LookupProper(d[1..], key);
    }
  }

  lemma {:induction false} VersionAttribMeaning(text: string, key: string)
    requires Pairs(text).Some?
    ensures var a, vs := VersionAttrib(StrToDict(text).value, key), ValuesOf(Pairs(text).value, key);
            (a.Some? <==> VersionValues(vs)) && (a.Some? ==> a.value == NumberOf(vs))
  {
    AttribListInSourceOrder(text, key);
    ListsAreLong(text, key);
    hide AsNumeric, StrToDict, Pairs;
  }

  /**
   Which number becomes which bound: `added` is the number of the one value given to the key
   `added` in the text, `removed` that of the key `removed`; otherwise parsing fails.
   */
  lemma {:induction false} ParsedSpan(raw: RawMethod)
    ensures ParseMethod(raw).Some? <==>
              && Pairs(raw.attrib).Some?
              && VersionValues(ValuesOf(Pairs(raw.attrib).value, "added"))
              && VersionValues(ValuesOf(Pairs(raw.attrib).value, "removed"))
    ensures ParseMethod(raw).Some? ==>
              && ParseMethod(raw).value.name == raw.name
              && ParseMethod(raw).value.span.added == NumberOf(ValuesOf(Pairs(raw.attrib).value, "added"))
              && ParseMethod(raw).value.span.removed == NumberOf(ValuesOf(Pairs(raw.attrib).value, "removed"))
  {
    if Pairs(raw.attrib).Some? {
      VersionAttribMeaning(raw.attrib, "added");
      VersionAttribMeaning(raw.attrib, "removed");
    }
    hide VersionAttrib, ValuesOf, VersionValues, NumberOf, Pairs;
  }

  lemma {:induction false} DigitsPlain(s: string)
    requires AllDigits(s)
    ensures Plain(s)
  {
  }

  lemma {:induction false} TwoValues(x: Assignment, y: Assignment)
    requires x.name != y.name
    ensures ValuesOf([x, y], x.name) == [x.value] && ValuesOf([x, y], y.name) == [y.value]
  {
    assert [x, y][1..] == [y] && [y][1..] == [];
    assert ValuesOf([y], x.name) == [] && ValuesOf([y], y.name) == [y.value] + [];
  }

  lemma {:induction false} KeysDiffer()
    ensures "added" != "removed" && Plain("added") && Plain("removed")
    ensures "added" + "=" == "added=" && "removed" + "=" == "removed="
  {
    assert "added"[0] != "removed"[0];
  }

  lemma {:induction false} BothKeys(a: string, r: string)
    requires AllDigits(a) && AllDigits(r)
    ensures Pairs("added=" + a + "," + ("removed=" + r)).Some?
    ensures var pairs := Pairs("added=" + a + "," + ("removed=" + r)).value;
            ValuesOf(pairs, "added") == [Text(a)] && ValuesOf(pairs, "removed") == [Text(r)]
  {
    var x, y := Assignment("added", Text(a)), Assignment("removed", Text(r));
    DigitsPlain(a);
    DigitsPlain(r);
    KeysDiffer();
    hide Pairs, ValuesOf, Plain;
    TwoValues(x, y);
    PrintedPairs(x, y);
  }

  lemma {:induction false} PrintedPairs(x: Assignment, y: Assignment)
    requires PlainPair(x) && PlainPair(y)
    ensures Pairs(ItemText(x) + "," + ItemText(y)) == Some([x, y])
  {
    var pairs := [x, y];
    ParseItemTexts(pairs);
    CollectPairs(pairs);
    var items := Map(ItemText, pairs);
    assert items == [ItemText(x)] + [ItemText(y)];
    JoinFirst(ItemText(x), [ItemText(y)], ",");
    SplitJoin(items, ',');
  }

  lemma {:induction false} SpanOfText(name: string, a: string, r: string)
    requires AllDigits(a) && AllDigits(r) && AsNumeric(a).Some? && AsNumeric(r).Some?
    ensures ParseMethod(RawMethod(name, "added=" + a + "," + ("removed=" + r)))
            == Some(Method(name, Span(AsNumeric(a), AsNumeric(r))))
  {
    BothKeys(a, r);
    OneVersion(a);
    OneVersion(r);
    var raw := RawMethod(name, "added=" + a + "," + ("removed=" + r));
    ParsedSpan(raw);
    hide *;
    assert ParseMethod(raw).value.span == Span(AsNumeric(a), AsNumeric(r));
  }

  /** Writing two versions into the text and parsing it gives their numbers, each as its own bound. */
  lemma {:induction false} SpanRoundTrip(name: string, major: int, revision: int, major': int, revision': int)
    requires Make(major, revision).Some? && Make(major', revision').Some?
    ensures var text := "added=" + Make(major, revision).value + "," + ("removed=" + Make(major', revision').value);
            ParseMethod(RawMethod(name, text))
            == Some(Method(name, Span(Some(100 * major + revision), Some(100 * major' + revision'))))
  {
    hide *;
    MakeRoundTrip(major, revision);
    MakeRoundTrip(major', revision');
    MakeDigits(major, revision);
    MakeDigits(major', revision');
    SpanOfText(name, Make(major, revision).value, Make(major', revision').value);
  }

  lemma {:induction false} OneVersion(t: string)
    requires AsNumeric(t).Some?
    ensures VersionValues([Text(t)]) && NumberOf([Text(t)]) == AsNumeric(t)
  {
  }

  lemma {:induction false} MakeDigits(major: int, revision: int)
    requires Make(major, revision).Some?
    ensures AllDigits(Make(major, revision).value)
  {
  }

  /** `_has_version` applied to the raw text: a substring test, not a key lookup. */
  predicate MentionsVersion(attrib: string) {
    Contains(attrib, "added") || Contains(attrib, "removed")
  }

  predicate HasVersionedFuncs(raws: seq<RawMethod>) {
    exists i :: 0 <= i < |raws| && MentionsVersion(raws[i].attrib)
  }

  /** `get_virtual_funcs(version_order, version)` as the code takes its branches. */
  function VirtualFuncs(raws: seq<RawMethod>, versionOrder: bool, version: Option<int>): seq<Method>
    requires Parses(raws)
  {
    if versionOrder && HasVersionedFuncs(raws) then Ordered(ParseMethods(raws), version)
    else ParseMethods(raws)
  }

  /** The test on the raw text is a search for either word, anywhere in it. */
  lemma {:induction false} MentionsIff(attrib: string)
    ensures MentionsVersion(attrib) <==> exists j :: OccursAt(attrib, "added", j) || OccursAt(attrib, "removed", j)
  {
    IndexOfFirst(attrib, "added");
    IndexOfFirst(attrib, "removed");
  }

  lemma {:induction false} VersionMentioned(raw: RawMethod)
    requires ParseMethod(raw).Some? && ParseMethod(raw).value.span.HasVersion()
    ensures MentionsVersion(raw.attrib)
  {
    var d := StrToDict(raw.attrib).value;
    if Lookup(d, "added").Some? {
      KeyOccursInText(raw.attrib, "added");
    } else {
      KeyOccursInText(raw.attrib, "removed");
    }
  }

  /** A head that is below everything stays in front. */
  lemma {:induction false} InsertLeast(x: Method, ys: seq<Method>)
    requires ys != [] ==> AddedLe(x, ys[0])
    ensures Insert(AddedLe, x, ys) == [x] + ys
  {
  }

  lemma {:induction false} SortUnversioned(methods: seq<Method>)
    requires forall i :: 0 <= i < |methods| ==> methods[i].span.VersionAdded() == 0
    ensures Sort(AddedLe, methods) == methods
  {
    if methods == [] {
    } else {
      SortUnversioned(methods[1..]);
      InsertLeast(methods[0], methods[1..]);
      assert methods == [methods[0]] + methods[1..];
    }
  }

  /** Exactly when skipping the sort is invisible: always, unless a negative limit is passed. */
  lemma {:induction false} FastPathIff(raws: seq<RawMethod>, version: Option<int>)
    requires Parses(raws)
    ensures VirtualFuncs(raws, true, version) == Ordered(ParseMethods(raws), version)
            <==> HasVersionedFuncs(raws) || raws == [] || version.None? || version.value >= 0
  {
    if !HasVersionedFuncs(raws) {
      var methods := ParseMethods(raws);
      forall i | 0 <= i < |methods|
        ensures methods[i].span.VersionAdded() == 0
      {
        if methods[i].span.HasVersion() {
          VersionMentioned(raws[i]);
        }
      }
      SortUnversioned(methods);
      if version.Some? {
        var p := (m: Method) => AddedBy(m, version.value);
        if version.value >= 0 {
          FilterAll(p, methods);
        } else {
          FilterNone(p, methods);
        }
      }
    }
  }
}
