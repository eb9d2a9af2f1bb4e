/**
 The API version algebra of tools/cef_parser.py: lifetimes of classes and methods, the list of
 all versions of a class across its inheritance chain, and rounding a requested version down to
 the closest one. A header's classes form a forest, so a class is modelled together with the
 chain of its ancestors.
 */
module ClassVersions {
  import opened Options
  import opened Sequences

  /** The numeric `added` and `removed` attributes of a class or method. */
  datatype Span = Span(added: Option<nat>, removed: Option<nat>) {
    predicate HasVersion() {
      added.Some? || removed.Some?
    }

    /** Zero when unspecified, so that the unversioned comes first. */
    function VersionAdded(): nat {
      if added.Some? then added.value else 0
    }

    function VersionRemoved(): nat {
      if removed.Some? then removed.value else 0
    }

    predicate RemovedAt(v: int) {
      removed.Some? && removed.value <= v
    }

    predicate ExistsAt(v: int) {
      !(added.Some? && added.value > v) && !RemovedAt(v)
    }

    /** Some version exists in the span. */
    predicate Live() {
      removed.Some? ==> VersionAdded() < removed.value
    }
  }

  datatype Method = Method(name: string, span: Span)

  /** A class with its inheritance chain up to CefBaseRefCounted or CefBaseScoped. */
  datatype Cls =
    | Base(name: string)
    | Cls(name: string, span: Span, methods: seq<Method>, parent: Cls)

  type Class = c: Cls | c.Cls? witness Cls("", Span(None, None), [], Base(""))

  // ----- Sorted version lists -----

  ghost predicate StrictlyAscending(xs: seq<nat>) {
    forall i, j :: 0 <= i < j < |xs| ==> xs[i] < xs[j]
  }

  function Least(s: set<nat>): (m: nat)
    requires s != {}
    ensures m in s && forall x :: x in s ==> m <= x
  {
    LeastExists(s);
    var m :| m in s && IsLeast(s, m);
    m
  }

  predicate IsLeast(s: set<nat>, m: nat) {
    m in s && forall x :: x in s ==> m <= x
  }

  lemma {:induction false} LeastWith(s: set<nat>, y: nat, m: nat)
    requires IsLeast(s, m)
    ensures IsLeast(s + {y}, if m <= y then m else y)
  {
  }

  lemma {:induction false} LeastExists(s: set<nat>)
    requires s != {}
    ensures exists m :: m in s && IsLeast(s, m)
  {
    var y :| y in s;
    var rest := s - {y};
    assert s == rest + {y};
    if rest != {} {
      LeastExists(rest);
      var m :| m in rest && IsLeast(rest, m);
      LeastWith(rest, y, m);
    } else {
      assert IsLeast({y}, y);
    }
  }

  /** `sorted(list(s))` for a set. */
  function Ascending(s: set<nat>): (r: seq<nat>)
    ensures StrictlyAscending(r)
    ensures forall x :: x in r <==> x in s
    ensures r == [] <==> s == {}
  {
    if s == {} then [] else
      var m := Least(s);
      [m] + Ascending(s - {m})
  }

  /** `bisect.bisect_right` restricted to `a[lo..hi]`. */
  function BisectRight(a: seq<nat>, x: int, lo: nat, hi: nat): (r: nat)
    requires StrictlyAscending(a) && lo <= hi <= |a|
    requires forall i :: 0 <= i < lo ==> a[i] <= x
    requires forall i :: hi <= i < |a| ==> x < a[i]
    ensures r <= |a|
    ensures forall i :: 0 <= i < r ==> a[i] <= x
    ensures forall i :: r <= i < |a| ==> x < a[i]
    decreases hi - lo
  {
    if lo == hi then lo else
      var mid := (lo + hi) / 2;
      if x < a[mid] then BisectRight(a, x, lo, mid) else BisectRight(a, x, mid + 1, hi)
  }

  /** `r` is the greatest member of `xs` that does not exceed `target`, if there is one. */
  ghost predicate GreatestNotAbove(xs: seq<nat>, target: int, r: Option<nat>) {
    match r
    case None => forall x :: x in xs ==> target < x
    case Some(w) => w in xs && w <= target && forall x :: x in xs && x <= target ==> x <= w
  }

  function FindClosestNotGreater(xs: seq<nat>, target: int): (r: Option<nat>)
    requires StrictlyAscending(xs)
    ensures GreatestNotAbove(xs, target, r)
  {
    var idx := BisectRight(xs, target, 0, |xs|) - 1;
    if idx < 0 then None else Some(xs[idx])
  }

  // ----- All versions of a class -----

  function MethodVersions(methods: seq<Method>): (r: set<nat>)
    ensures 0 in r
    ensures forall m :: m in methods && m.span.HasVersion() ==>
                          m.span.VersionAdded() in r && m.span.VersionRemoved() in r
  {
    if methods == [] then {0}
    else if methods[0].span.HasVersion() then
      {methods[0].span.VersionAdded(), methods[0].span.VersionRemoved()} + MethodVersions(methods[1..])
    else MethodVersions(methods[1..])
  }

  lemma {:induction false} MethodVersionsStep(methods: seq<Method>, i: nat)
    requires i < |methods|
    ensures MethodVersions(methods[i..])
            == (if methods[i].span.HasVersion()
                then {methods[i].span.VersionAdded(), methods[i].span.VersionRemoved()} else {})
               + MethodVersions(methods[i + 1..])
  {
    assert methods[i..][1..] == methods[i + 1..];
  }

  /** A boundary in a list of methods: 0, or a version that adds or removes one of them. */
  lemma {:induction false} BoundaryIff(methods: seq<Method>, x: nat)
    ensures x in MethodVersions(methods)
            <==> x == 0 || exists m :: m in methods && (m.span.added == Some(x) || m.span.removed == Some(x))
  {
    if methods == [] {
    } else {
      BoundaryIff(methods[1..], x);
      if m :| m in methods && (m.span.added == Some(x) || m.span.removed == Some(x)) {
        assert m == methods[0] || m in methods[1..];
      }
      assert forall m :: m in methods[1..] ==> m in methods;
      assert methods[0] in methods;
    }
  }

  /** Clamping to the class's own lifetime; the class's first version is always kept. */
  function Clamp(span: Span, versions: set<nat>): set<nat> {
    var from := if span.added.Some?
                then (set x | x in versions && x >= span.added.value) + {span.added.value}
                else versions;
    if span.removed.Some? then set x | x in from && x < span.removed.value else from
  }

  function Elements(xs: seq<nat>): set<nat> {
    set x | x in xs
  }

  /** The versions of a class given its parent's; None where `assert len(versions) > 0` fails. */
  function VersionsFrom(span: Span, inherited: seq<nat>, methods: seq<Method>): (r: Option<seq<nat>>)
    ensures r.Some? ==> StrictlyAscending(r.value) && r.value != []
  {
    var versions := Clamp(span, Elements(inherited) + MethodVersions(methods));
    if versions == {} then None else Some(Ascending(versions))
  }

  /** `get_all_versions`; None where the assertion fails for a class of the chain. */
  function AllVersions(c: Class): (r: Option<seq<nat>>)
    ensures r.Some? ==> StrictlyAscending(r.value) && r.value != []
  {
    var inherited := if c.parent.Base? then Some([]) else AllVersions(c.parent);
    if inherited.None? then None else VersionsFrom(c.span, inherited.value, c.methods)
  }

  /** Every class of the chain has a non-empty lifetime. */
  predicate LiveChain(c: Class) {
    c.span.Live() && (c.parent.Cls? ==> LiveChain(c.parent))
  }

  /** The assertion in `get_all_versions` passes exactly when no lifetime on the chain is empty. */
  lemma {:induction false} AllVersionsSucceedsIff(c: Class)
    ensures AllVersions(c).Some? <==> LiveChain(c)
  {
    if c.parent.Cls? {
      AllVersionsSucceedsIff(c.parent);
    }
    var inherited := if c.parent.Base? then Some([]) else AllVersions(c.parent);
    if inherited.Some? {
      var raw := Elements(inherited.value) + MethodVersions(c.methods);
      assert 0 in raw;
      if c.span.Live() {
        assert c.span.VersionAdded() in Clamp(c.span, raw);
      } else {
        assert Clamp(c.span, raw) == {};
      }
    }
  }

  function Versions(c: Class): (r: seq<nat>)
    requires LiveChain(c)
    ensures StrictlyAscending(r) && r != []
  {
    AllVersionsSucceedsIff(c);
    AllVersions(c).value
  }

  /** `get_closest_version` */
  function Closest(c: Class, v: int): (r: Option<nat>)
    requires LiveChain(c)
    ensures GreatestNotAbove(Versions(c), v, r)
  {
    FindClosestNotGreater(Versions(c), v)
  }

  function FirstVersion(c: Class): nat
    requires LiveChain(c)
  {
    Versions(c)[0]
  }

  /** Which numbers are versions of a class: its own boundaries and its parent's versions, while it exists. */
  lemma {:induction false} VersionMembers(c: Class, x: nat)
    requires LiveChain(c)
    ensures x in Versions(c) <==>
            && c.span.ExistsAt(x)
            && (|| c.span.added == Some(x)
                || x in MethodVersions(c.methods)
                || (c.parent.Cls? && x in Versions(c.parent)))
  {
    AllVersionsSucceedsIff(c);
    if c.parent.Cls? {
      AllVersionsSucceedsIff(c.parent);
    }
  }

  /** The list is headed by `added` (or 0), and the class exists at each of its versions. */
  lemma {:induction false} VersionListWellFormed(c: Class, v: int)
    requires LiveChain(c)
    ensures FirstVersion(c) == c.span.VersionAdded()
    ensures forall x :: x in Versions(c) ==> c.span.ExistsAt(x)
    ensures Closest(c, v).None? <==> v < c.span.VersionAdded()
  {
    VersionMembers(c, c.span.VersionAdded());
    forall x | x in Versions(c)
      ensures c.span.ExistsAt(x) && c.span.VersionAdded() <= x
    {
      VersionMembers(c, x);
    }
    assert FirstVersion(c) in Versions(c);
  }

  // ----- Coherence along the inheritance chain -----

  /** The number of proper ancestors below the base class. */
  function Depth(c: Class): nat {
    if c.parent.Base? then 0 else 1 + Depth(c.parent)
  }

  function Up(c: Class, k: nat): (a: Class)
    requires k <= Depth(c)
    decreases k
  {
    if k == 0 then c else Up(c.parent, k - 1)
  }

  lemma {:induction false} UpLive(c: Class, k: nat)
    requires k <= Depth(c) && LiveChain(c)
    ensures LiveChain(Up(c, k))
    decreases k
  {
    if k == 0 {
    } else {
      UpLive(c.parent, k - 1);
    }
  }

  /** `c` and every class strictly below its `k`-th ancestor exist at `v`. */
  predicate AliveBelow(c: Class, k: nat, v: int)
    requires k <= Depth(c)
    decreases k
  {
    k > 0 ==> c.span.ExistsAt(v) && AliveBelow(c.parent, k - 1, v)
  }

  /** The version of the `k`-th ancestor used by the struct of `c` for version `v`. */
  function ClosestUp(c: Class, k: nat, v: int): Option<nat>
    requires k <= Depth(c) && LiveChain(c)
  {
    UpLive(c, k);
    Closest(Up(c, k), v)
  }

  lemma {:induction false} ClosestBelow(c: Class, v: int)
    requires LiveChain(c) && Closest(c, v).Some?
    ensures Closest(c, v).value <= v
  {
  }

  /** Rounding is monotone. */
  lemma {:induction false} ClosestMonotone(c: Class, v: int, v': int)
    requires LiveChain(c) && v <= v'
    ensures Closest(c, v).Some? ==> Closest(c, v').Some? && Closest(c, v).value <= Closest(c, v').value
  {
  }

  /** Two roundings agree when no listed version separates their targets. */
  lemma {:induction false} SameRounding(ys: seq<nat>, v: int, w: int, atV: Option<nat>, atW: Option<nat>)
    requires w <= v && GreatestNotAbove(ys, v, atV) && GreatestNotAbove(ys, w, atW)
    requires forall y :: y in ys ==> y <= w || v < y
    ensures atV == atW
  {
    if atV.Some? && atW.Some? {
      assert atV.value <= atW.value && atW.value <= atV.value;
    }
  }

  /** Rounding to the class first does not change its parent's version: the embedded base struct. */
  lemma {:induction false} ParentCoherence(c: Class, v: nat)
    requires LiveChain(c) && c.parent.Cls? && c.span.ExistsAt(v)
    ensures Closest(c, v).Some?
    ensures Closest(c.parent, v) == Closest(c.parent, Closest(c, v).value)
  {
    VersionListWellFormed(c, v);
    var w := Closest(c, v).value;
    VersionMembers(c, w);
    forall y | y in Versions(c.parent)
      ensures y <= w || v < y
    {
      VersionMembers(c, y);
    }
    SameRounding(Versions(c.parent), v, w, Closest(c.parent, v), Closest(c.parent, w));
  }

  /** Coherence of every ancestor at `v`, when no class below that ancestor is missing at `v`. */
  lemma {:induction false} AncestorCoherence(c: Class, k: nat, v: nat)
    requires LiveChain(c) && 0 < k <= Depth(c) && AliveBelow(c, k, v)
    ensures Closest(c, v).Some?
    ensures ClosestUp(c, k, v) == ClosestUp(c, k, Closest(c, v).value)
    decreases k
  {
    hide Closest, AllVersions, Versions, GreatestNotAbove, StrictlyAscending;
    ParentCoherence(c, v);
    UpLive(c, k);
    var w := Closest(c, v).value;
    ClosestBelow(c, v);
    if k > 1 {
      AncestorCoherence(c.parent, k - 1, v);
      ClosestBelow(c.parent, w);
      var p := Closest(c.parent, v).value;
      var a := Up(c, k);
      assert a == Up(c.parent, k - 1);
      assert Closest(a, v) == Closest(a, p);
      ClosestMonotone(a, p, w);
      ClosestMonotone(a, w, v);
    } else {
      assert Up(c, 1) == Up(c.parent, 0) == c.parent;
    }
  }

  function ExampleGrandparent(): Class {
    Cls("CefG", Span(None, None), [Method("F", Span(Some(5), None))], Base("CefBaseRefCounted"))
  }

  function ExampleParent(): Class {
    Cls("CefP", Span(None, Some(4)), [], ExampleGrandparent())
  }

  function ExampleClass(): Class {
    Cls("CefC", Span(None, None), [], ExampleParent())
  }

  lemma {:induction false} ExampleVersions(x: nat)
    ensures LiveChain(ExampleClass())
    ensures x in Versions(ExampleGrandparent()) <==> x == 0 || x == 5
    ensures x in Versions(ExampleClass()) <==> x == 0
  {
    assert ExampleGrandparent().methods[1..] == [];
    VersionMembers(ExampleGrandparent(), x);
    VersionMembers(ExampleParent(), x);
    VersionMembers(ExampleClass(), x);
  }

  /**
   Without a condition on the classes in between the statement fails: the version of the
   grandparent added at 5 is clamped away by a parent removed at 4.
   */
  lemma {:induction false} CoherenceFailsPastRemovedParent()
    ensures LiveChain(ExampleClass()) && Depth(ExampleClass()) == 2 && ExampleClass().span.ExistsAt(6)
    ensures Closest(ExampleClass(), 6) == Some(0)
    ensures ClosestUp(ExampleClass(), 2, 6) == Some(5) && ClosestUp(ExampleClass(), 2, 0) == Some(0)
  {
    forall x: nat
      ensures x in Versions(ExampleGrandparent()) <==> x == 0 || x == 5
      ensures x in Versions(ExampleClass()) <==> x == 0
    {
      ExampleVersions(x);
    }
    ExampleVersions(0);
    assert Up(ExampleClass(), 2) == Up(ExampleParent(), 1) == Up(ExampleGrandparent(), 0);
    assert 0 in Versions(ExampleGrandparent()) && 5 in Versions(ExampleGrandparent());
    assert 0 in Versions(ExampleClass());
  }

  /**
   The clamps from the `k`-th ancestor down to `c` let `x` through: each class exists at `x`, unless
   one of them has `x` as a boundary of its own, in which case only the classes from there on count.
   */
  predicate Passes(c: Class, k: nat, x: nat)
    requires k <= Depth(c)
    decreases k
  {
    k > 0 ==>
      && c.span.ExistsAt(x)
      && (c.span.added == Some(x) || x in MethodVersions(c.methods) || Passes(c.parent, k - 1, x))
  }

  /** No version of the ancestor in the life of `c` is clamped away on the way down. */
  ghost predicate LetsThrough(c: Class, k: nat)
    requires LiveChain(c) && k <= Depth(c)
  {
    UpLive(c, k);
    forall x :: x in Versions(Up(c, k)) && c.span.ExistsAt(x) ==> Passes(c, k, x)
  }

  /** An ancestor's version is a version of `c` exactly when the classes in between let it through. */
  lemma {:induction false} InheritedIff(c: Class, k: nat, x: nat)
    requires LiveChain(c) && k <= Depth(c)
    requires LiveChain(Up(c, k)) && x in Versions(Up(c, k))
    ensures x in Versions(c) <==> Passes(c, k, x)
    decreases k
  {
    if k == 0 {
    } else {
      VersionMembers(c, x);
      hide Versions, AllVersions, MethodVersions;
      InheritedIff(c.parent, k - 1, x);
    }
  }

  /** Rounding to `c` first does not change the version of `a`. */
  ghost predicate CoherentAt(c: Class, a: Class, v: int)
    requires LiveChain(c) && LiveChain(a)
  {
    Closest(c, v).Some? && Closest(a, v) == Closest(a, Closest(c, v).value)
  }

  lemma {:induction false} KeptVersionsCohere(c: Class, a: Class, v: nat)
    requires LiveChain(c) && LiveChain(a) && c.span.ExistsAt(v)
    requires forall x :: x in Versions(a) && c.span.ExistsAt(x) ==> x in Versions(c)
    ensures CoherentAt(c, a, v)
  {
    VersionListWellFormed(c, v);
    var w := Closest(c, v).value;
    forall y | y in Versions(a)
      ensures y <= w || v < y
    {
      assert c.span.ExistsAt(y) ==> y in Versions(c);
    }
    SameRounding(Versions(a), v, w, Closest(a, v), Closest(a, w));
  }

  lemma {:induction false} CoherentVersionIsKept(c: Class, a: Class, x: nat)
    requires LiveChain(c) && LiveChain(a) && x in Versions(a) && CoherentAt(c, a, x)
    ensures x in Versions(c)
  {
    CommonRounding(Versions(a), x, Closest(c, x).value, Closest(a, x));
  }

  /** If a listed version rounds like a smaller number, it is that number. */
  lemma {:induction false} CommonRounding(ys: seq<nat>, x: nat, w: nat, r: Option<nat>)
    requires x in ys && w <= x && GreatestNotAbove(ys, x, r) && GreatestNotAbove(ys, w, r)
    ensures x == w
  {
  }

  /** Exactly when coherence with the `k`-th ancestor holds throughout the life of `c`. */
  lemma {:induction false} AncestorCoherenceIff(c: Class, k: nat)
    requires LiveChain(c) && k <= Depth(c)
    ensures LiveChain(Up(c, k))
    ensures LetsThrough(c, k) <==>
            forall v: nat :: c.span.ExistsAt(v) ==> CoherentAt(c, Up(c, k), v)
  {
    UpLive(c, k);
    var a := Up(c, k);
    forall x | x in Versions(a)
      ensures x in Versions(c) <==> Passes(c, k, x)
    {
      InheritedIff(c, k, x);
    }
    hide Versions, AllVersions, Passes, CoherentAt;
    if LetsThrough(c, k) {
      forall v: nat | c.span.ExistsAt(v)
        ensures CoherentAt(c, a, v)
      {
        KeptVersionsCohere(c, a, v);
      }
    }
    if forall v: nat :: c.span.ExistsAt(v) ==> CoherentAt(c, a, v) {
      forall x | x in Versions(a) && c.span.ExistsAt(x)
        ensures x in Versions(c)
      {
        CoherentVersionIsKept(c, a, x);
      }
    }
  }

  // ----- Rounding loses no method -----

  /** Own and inherited methods that exist at `v`, in the order make_cpptoc_impl.py collects them. */
  function ExistingMethods(c: Class, v: int): seq<Method> {
    Filter((m: Method) => m.span.ExistsAt(v), c.methods)
    + (if c.parent.Cls? then ExistingMethods(c.parent, v) else [])
  }

  /** The class and all its ancestors exist at `v`. */
  predicate AliveChain(c: Class, v: int) {
    c.span.ExistsAt(v) && (c.parent.Cls? ==> AliveChain(c.parent, v))
  }

  /** No method boundary lies strictly above the rounded version. */
  lemma {:induction false} SpanUnchangedByRounding(c: Class, m: Method, v: nat)
    requires LiveChain(c) && c.span.ExistsAt(v) && m in c.methods
    ensures Closest(c, v).Some?
    ensures (m.span.VersionAdded() <= v <==> m.span.VersionAdded() <= Closest(c, v).value)
    ensures m.span.RemovedAt(v) <==> m.span.RemovedAt(Closest(c, v).value)
  {
    VersionListWellFormed(c, v);
    var w := Closest(c, v).value;
    VersionMembers(c, w);
    VersionMembers(c, m.span.VersionAdded());
    VersionMembers(c, m.span.VersionRemoved());
  }

  /** The same, for a version between the rounded one and the requested one. */
  lemma {:induction false} MethodsBetween(c: Class, v: nat, u: nat)
    requires LiveChain(c) && c.span.ExistsAt(v) && u <= v
    requires Closest(c, v).Some? && Closest(c, v).value <= u
    ensures Filter((m: Method) => m.span.ExistsAt(v), c.methods)
            == Filter((m: Method) => m.span.ExistsAt(u), c.methods)
  {
    forall m | m in c.methods
      ensures m.span.ExistsAt(v) == m.span.ExistsAt(u)
    {
      SpanUnchangedByRounding(c, m, v);
    }
    FilterAgree((m: Method) => m.span.ExistsAt(v), (m: Method) => m.span.ExistsAt(u), c.methods);
  }

  lemma {:induction false} RoundingLosesNothingBetween(c: Class, v: nat, u: nat)
    requires LiveChain(c) && AliveChain(c, v) && u <= v
    requires Closest(c, v).Some? && Closest(c, v).value <= u
    ensures ExistingMethods(c, v) == ExistingMethods(c, u)
  {
    MethodsBetween(c, v, u);
    if c.parent.Cls? {
      ParentCoherence(c, v);
      VersionListWellFormed(c.parent, v);
      RoundingLosesNothingBetween(c.parent, v, u);
    }
  }

  /** A class's wrapper for its closest version offers exactly the methods of the requested version. */
  lemma {:induction false} RoundingLosesNothing(c: Class, v: nat)
    requires LiveChain(c) && AliveChain(c, v)
    ensures Closest(c, v).Some?
    ensures ExistingMethods(c, v) == ExistingMethods(c, Closest(c, v).value)
  {
    VersionListWellFormed(c, v);
    RoundingLosesNothingBetween(c, v, Closest(c, v).value);
  }

  /** Every class's lifetime lies inside its parent's. */
  ghost predicate NestedLifetimes(c: Class) {
    c.parent.Cls? ==>
      && (forall v: nat :: c.span.ExistsAt(v) ==> c.parent.span.ExistsAt(v))
      && NestedLifetimes(c.parent)
  }

  lemma {:induction false} NestedIsAlive(c: Class, v: nat)
    requires NestedLifetimes(c) && c.span.ExistsAt(v)
    ensures AliveChain(c, v)
  {
    if c.parent.Cls? {
      NestedIsAlive(c.parent, v);
    }
  }

  /** With nested lifetimes nothing is lost at any version of the class's life. */
  lemma {:induction false} RoundingLosesNothingWhenNested(c: Class)
    requires LiveChain(c) && NestedLifetimes(c)
    ensures forall v: nat :: c.span.ExistsAt(v) ==>
                               Closest(c, v).Some? &&
                               ExistingMethods(c, v) == ExistingMethods(c, Closest(c, v).value)
  {
    forall v: nat | c.span.ExistsAt(v)
      ensures Closest(c, v).Some? && ExistingMethods(c, v) == ExistingMethods(c, Closest(c, v).value)
    {
      NestedIsAlive(c, v);
      RoundingLosesNothing(c, v);
    }
  }

  lemma {:induction false} AliveChainBelow(c: Class, k: nat, v: int)
    requires k <= Depth(c) && AliveChain(c, v)
    ensures AliveBelow(c, k, v)
    decreases k
  {
    if k == 0 {
    } else {
      AliveChainBelow(c.parent, k - 1, v);
    }
  }

  /** While the whole chain exists, every ancestor's version is the same for `v` and for the rounded version. */
  lemma {:induction false} AliveChainCoheres(c: Class, k: nat, v: nat)
    requires LiveChain(c) && k <= Depth(c) && AliveChain(c, v)
    ensures Closest(c, v).Some?
    ensures ClosestUp(c, k, v) == ClosestUp(c, k, Closest(c, v).value)
  {
    if k == 0 {
      VersionListWellFormed(c, v);
      ClosestOfClosest(c, v);
    } else {
      AliveChainBelow(c, k, v);
      AncestorCoherence(c, k, v);
    }
  }

  lemma {:induction false} ClosestOfClosest(c: Class, v: nat)
    requires LiveChain(c) && Closest(c, v).Some?
    ensures Closest(c, Closest(c, v).value) == Closest(c, v)
  {
    var w := Closest(c, v).value;
    SameRounding(Versions(c), v, w, Closest(c, v), Closest(c, w));
  }

  // ----- Exactly when rounding loses nothing -----

  /** The methods of the class and of all its ancestors. */
  function ChainMethods(c: Class): seq<Method> {
    c.methods + if c.parent.Cls? then ChainMethods(c.parent) else []
  }

  lemma {:induction false} ExistingIsFilter(c: Class, v: int)
    ensures ExistingMethods(c, v) == Filter((m: Method) => m.span.ExistsAt(v), ChainMethods(c))
  {
    var p := (m: Method) => m.span.ExistsAt(v);
    if c.parent.Cls? {
      ExistingIsFilter(c.parent, v);
      FilterAppend(p, c.methods, ChainMethods(c.parent));
    } else {
      assert c.methods + [] == c.methods;
      assert Filter(p, c.methods) + [] == Filter(p, c.methods);
    }
  }

  /** The method appears or disappears at `x`. */
  predicate Turns(m: Method, x: nat) {
    x > 0 && (m.span.ExistsAt(x) <==> !m.span.ExistsAt(x - 1))
  }

  lemma {:induction false} SameExistingIff(c: Class, v: int, w: int)
    ensures ExistingMethods(c, v) == ExistingMethods(c, w)
            <==> forall m :: m in ChainMethods(c) ==> (m.span.ExistsAt(v) <==> m.span.ExistsAt(w))
  {
    var p, q := (m: Method) => m.span.ExistsAt(v), (m: Method) => m.span.ExistsAt(w);
    ExistingIsFilter(c, v);
    ExistingIsFilter(c, w);
    var ms := ChainMethods(c);
    if forall m :: m in ms ==> p(m) == q(m) {
      FilterAgree(p, q, ms);
    }
    if Filter(p, ms) == Filter(q, ms) {
      forall m | m in ms
        ensures p(m) == q(m)
      {
        FilterMember(p, ms, m);
        FilterMember(q, ms, m);
      }
    }
  }

  /** `x` is a boundary of the class, or of an ancestor that passes it down. */
  predicate Listed(c: Class, x: nat) {
    && c.span.ExistsAt(x)
    && (c.span.added == Some(x) || x in MethodVersions(c.methods) || (c.parent.Cls? && Listed(c.parent, x)))
  }

  lemma {:induction false} VersionsAreListed(c: Class, x: nat)
    requires LiveChain(c)
    ensures x in Versions(c) <==> Listed(c, x)
  {
    VersionMembers(c, x);
    hide Versions, AllVersions, MethodVersions;
    if c.parent.Cls? {
      VersionsAreListed(c.parent, x);
    }
  }

  /** Every turn of a method on the chain during the life of `c` is passed down to `c` as a boundary. */
  ghost predicate TurnsAreListed(c: Class) {
    forall m, x: nat :: m in ChainMethods(c) && c.span.ExistsAt(x) && Turns(m, x) ==> Listed(c, x)
  }

  /** Rounding `v` keeps the own and inherited methods. */
  ghost predicate LosesNothingAt(c: Class, v: nat)
    requires LiveChain(c)
  {
    Closest(c, v).Some? && ExistingMethods(c, v) == ExistingMethods(c, Closest(c, v).value)
  }

  lemma {:induction false} NoTurnsBetween(m: Method, w: nat, v: nat)
    requires w <= v && forall x: nat :: w < x <= v ==> !Turns(m, x)
    ensures m.span.ExistsAt(v) <==> m.span.ExistsAt(w)
    decreases v - w
  {
    if w == v {
    } else {
      assert !Turns(m, v);
      NoTurnsBetween(m, w, v - 1);
    }
  }

  lemma {:induction false} TurnsKept(c: Class, v: nat)
    requires LiveChain(c) && TurnsAreListed(c) && c.span.ExistsAt(v)
    ensures LosesNothingAt(c, v)
  {
    VersionListWellFormed(c, v);
    var w := Closest(c, v).value;
    VersionMembers(c, w);
    forall m | m in ChainMethods(c)
      ensures m.span.ExistsAt(v) <==> m.span.ExistsAt(w)
    {
      forall x: nat | w < x <= v
        ensures !Turns(m, x)
      {
        VersionsAreListed(c, x);
        assert x !in Versions(c) && c.span.ExistsAt(x);
      }
      NoTurnsBetween(m, w, v);
    }
    SameExistingIff(c, v, w);
  }

  /** Between two versions in a row the rounded version only changes where one is listed. */
  lemma {:induction false} UnlistedRoundsAlike(c: Class, x: nat)
    requires LiveChain(c) && c.span.ExistsAt(x) && x > 0 && x !in Versions(c)
    ensures c.span.ExistsAt(x - 1)
    ensures Closest(c, x) == Closest(c, x - 1)
  {
    VersionListWellFormed(c, x);
    assert FirstVersion(c) in Versions(c);
    SameRounding(Versions(c), x, x - 1, Closest(c, x), Closest(c, x - 1));
  }

  lemma {:induction false} TurnIsVersion(c: Class, m: Method, x: nat)
    requires LiveChain(c) && m in ChainMethods(c) && c.span.ExistsAt(x) && Turns(m, x)
    requires LosesNothingAt(c, x) && (c.span.ExistsAt(x - 1) ==> LosesNothingAt(c, x - 1))
    ensures Listed(c, x)
  {
    VersionsAreListed(c, x);
    SameExistingIff(c, x, x - 1);
    if x !in Versions(c) {
      UnlistedRoundsAlike(c, x);
    }
    hide Listed, Versions, AllVersions, Closest, ExistingMethods, ChainMethods;
  }

  /** Rounding loses nothing throughout the life of `c` exactly when every turn in it is listed. */
  lemma {:induction false} RoundingLosesNothingIff(c: Class)
    requires LiveChain(c)
    ensures (forall v: nat :: c.span.ExistsAt(v) ==> LosesNothingAt(c, v)) <==> TurnsAreListed(c)
  {
    if TurnsAreListed(c) {
      forall v: nat | c.span.ExistsAt(v)
        ensures LosesNothingAt(c, v)
      {
        TurnsKept(c, v);
      }
    }
    if forall v: nat :: c.span.ExistsAt(v) ==> LosesNothingAt(c, v) {
      forall m, x: nat | m in ChainMethods(c) && c.span.ExistsAt(x) && Turns(m, x)
        ensures Listed(c, x)
      {
        TurnIsVersion(c, m, x);
      }
    }
  }
}
