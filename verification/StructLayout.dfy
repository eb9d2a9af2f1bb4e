/**
 Binary compatibility end to end. A client compiles the C header that make_capi_header.py
 generates for its own CEF_API_VERSION; the library uses the structs that
 make_capi_versions_header.py generates for each version of a class. The two agree field by
 field, embedded base structs included, when the library picks the closest version.
 */
module StructLayout {
  import opened CapiNames
  import opened ClassVersions
  import opened MemberOrder
  import opened Options
  import opened PythonStrings
  import opened Sequences
  import opened StableSort
  import opened VersionChecks
  import opened VersionText

  /** A class declaration as parsed, with its ancestors. */
  datatype Header =
    | Root(name: string)
    | Declared(name: string, texts: Texts, decls: seq<Decl>, parent: Header)

  /** Every version on the chain is valid and reads the same in C. */
  predicate WellVersioned(h: Header) {
    h.Declared? ==>
      && h.texts.Valid() && h.texts.AllFaithful()
      && (forall d :: d in h.decls ==> d.texts.Valid() && d.texts.AllFaithful())
      && WellVersioned(h.parent)
  }

  function MethodOf(d: Decl): Method {
    Method(d.name, if d.texts.Valid() then d.texts.ToSpan() else Span(None, None))
  }

  function ToClass(h: Header): Cls
    requires WellVersioned(h)
  {
    match h
    case Root(name) => Base(name)
    case Declared(name, texts, decls, parent) =>
      Cls(name, texts.ToSpan(), Map(MethodOf, decls), ToClass(parent))
  }

  predicate DeclLe(a: Decl, b: Decl) {
    AddedLe(MethodOf(a), MethodOf(b))
  }

  /** The declarations in layout order, as `get_virtual_funcs(version_order=True)` gives them. */
  function OrderedDecls(decls: seq<Decl>): seq<Decl> {
    Sort(DeclLe, decls)
  }

  /** A field of a complete struct: the root's struct, or a slot of one of the classes. */
  datatype Field = RootStruct(name: string) | Field(cls: string, slot: Slot)

  function Tag(cls: string, slots: seq<Slot>): seq<Field> {
    Map((s: Slot) => Field(cls, s), slots)
  }

  /** Fields name their class and their slots in order: equal fields come from equal slots of one class. */
  lemma {:induction false} TagTells(cls: string, a: seq<Slot>, cls': string, b: seq<Slot>)
    requires Tag(cls, a) == Tag(cls', b)
    ensures a == b && (a != [] ==> cls == cls')
  {
    assert |a| == |b|;
    forall i | 0 <= i < |a|
      ensures a[i] == b[i] && cls == cls'
    {
      assert Tag(cls, a)[i] == Field(cls, a[i]) && Tag(cls', b)[i] == Field(cls', b[i]);
    }
  }

  /** The struct a client sees when it compiles the generated header; None if it is not declared. */
  function ClientStruct(h: Header, version: nat): Option<seq<Field>>
    requires WellVersioned(h)
  {
    match h
    case Root(name) => Some([RootStruct(name)])
    case Declared(name, texts, decls, parent) =>
      SortMembers(DeclLe, decls);
      var lines := ClassLines(texts, OrderedDecls(decls));
      var kept := Preprocess(lines, Client(version), []);
      var base := ClientStruct(parent, version);
      if kept.None? || kept.value == [] || base.None? then None
      else Some(base.value + Tag(name, kept.value[1..]))
  }

  /** `make_capi_member_funcs` of the versioned header: a removed member keeps a placeholder. */
  function VersionedSlot(m: Method, version: int): Slot {
    if m.span.RemovedAt(version) then Placeholder(m.name) else Function(m.name)
  }

  function VersionedMembers(methods: seq<Method>, version: int): seq<Slot> {
    Map((m: Method) => VersionedSlot(m, version), Ordered(methods, Some(version)))
  }

  /** The struct the library generates for one version of a class, with the base it embeds. */
  function LibraryStruct(c: Cls, version: nat): Option<seq<Field>>
    requires c.Cls? ==> LiveChain(c)
  {
    match c
    case Base(name) => Some([RootStruct(name)])
    case Cls(name, span, methods, parent) =>
      var base := if parent.Base? then LibraryStruct(parent, version)
                  else if Closest(parent, version).None? then None
                  else LibraryStruct(parent, Closest(parent, version).value);
      if base.None? then None else Some(base.value + Tag(name, VersionedMembers(methods, version)))
  }

  // ----- Names of embedded structs -----

  /** `get_parent_capi_name`: the base member's type for a version of a class. */
  function ParentStructName(c: Class, version: Option<nat>): string
    requires LiveChain(c)
  {
    if version.None? || c.parent.Base? then StructName(c.parent.name, None)
    else StructName(c.parent.name, Closest(c.parent, version.value))
  }

  /** `get_capi_name` of a class: its struct for the closest version; None where it raises. */
  function OwnStructName(c: Class, version: Option<int>, firstVersion: bool): Option<string>
    requires LiveChain(c)
  {
    if firstVersion then Some(StructName(c.name, Some(FirstVersion(c))))
    else if version.None? then Some(StructName(c.name, None))
    else if Closest(c, version.value).None? then None
    else Some(StructName(c.name, Closest(c, version.value)))
  }

  /** The first version's struct is that of the version that added the class. */
  lemma {:induction false} FirstStructName(c: Class, version: Option<int>)
    requires LiveChain(c)
    ensures OwnStructName(c, version, true) == OwnStructName(c, Some(c.span.VersionAdded()), false)
  {
    VersionListWellFormed(c, c.span.VersionAdded());
  }

  /** The struct that is embedded is the parent's own struct for the same version, or the base class's. */
  lemma {:induction false} EmbeddedIsParents(c: Class, version: Option<nat>)
    requires LiveChain(c)
    ensures c.parent.Base? ==> ParentStructName(c, version) == StructName(c.parent.name, None)
    ensures c.parent.Cls? && version.None? ==>
              Some(ParentStructName(c, version)) == OwnStructName(c.parent, None, false)
    ensures c.parent.Cls? && version.Some? && OwnStructName(c.parent, version, false).Some? ==>
              Some(ParentStructName(c, version)) == OwnStructName(c.parent, version, false)
    ensures c.parent.Cls? && version.Some? && OwnStructName(c.parent, version, false).None? ==>
              ParentStructName(c, version) == StructName(c.parent.name, None)
  {
  }

  /** The parts of an embedded struct's name: the parent's words, its closest version, and the suffix. */
  lemma {:induction false} EmbeddedParts(c: Class, v: nat, words: seq<string>)
    requires LiveChain(c) && c.parent.Cls? && AreWords(words) && c.parent.name == Flatten(words)
    requires Closest(c.parent, v).Some?
    ensures Split(ParentStructName(c, Some(v)), '_')
            == Map(Lower, words) + [Decimal(Closest(c.parent, v).value)] + ["t"]
  {
    StructNameParts(words, Closest(c.parent, v));
  }

  /** The embedded base is the same for a requested version and for the class's version closest to it. */
  lemma {:induction false} ParentStructNameCoherent(c: Class, v: nat)
    requires LiveChain(c) && c.span.ExistsAt(v)
    ensures Closest(c, v).Some?
    ensures ParentStructName(c, Some(v)) == ParentStructName(c, Some(Closest(c, v).value))
  {
    VersionListWellFormed(c, v);
    if c.parent.Cls? {
      ParentCoherence(c, v);
    }
  }

  /** The names of two embedded structs of one class agree only for the same version of its parent. */
  lemma {:induction false} ParentStructNameTellsVersion(c: Class, v: nat, v': nat)
    requires LiveChain(c) && c.parent.Cls?
    ensures ParentStructName(c, Some(v)) == ParentStructName(c, Some(v'))
            <==> Closest(c.parent, v) == Closest(c.parent, v')
  {
    if ParentStructName(c, Some(v)) == ParentStructName(c, Some(v')) {
      StructVersionInjective(c.parent.name, Closest(c.parent, v), Closest(c.parent, v'));
    }
  }

  // ----- Members -----

  /** A method declared as removed before it was added, caught in between. */
  predicate InGap(m: Method, version: int) {
    m.span.RemovedAt(version) && version < m.span.VersionAdded()
  }

  function ClientSlot(m: Method, version: int): seq<Slot> {
    if m.span.ExistsAt(version) then [Function(m.name)]
    else if m.span.RemovedAt(version) then [Placeholder(m.name)]
    else []
  }

  function ClientSlots(ms: seq<Method>, version: int): seq<Slot> {
    if ms == [] then [] else ClientSlot(ms[0], version) + ClientSlots(ms[1..], version)
  }

  function GapCount(ms: seq<Method>, version: int): nat {
    if ms == [] then 0 else (if InGap(ms[0], version) then 1 else 0) + GapCount(ms[1..], version)
  }

  lemma {:induction false} MemberSlotsAreClientSlots(ds: seq<Decl>, version: nat)
    requires forall d :: d in ds ==> d.texts.Valid()
    ensures MemberSlots(ds, Client(version)) == ClientSlots(Map(MethodOf, ds), version)
  {
    if ds == [] {
    } else {
      MemberSlotsAreClientSlots(ds[1..], version);
      assert Map(MethodOf, ds)[1..] == Map(MethodOf, ds[1..]);
    }
  }

  lemma {:induction false} OrderedDeclsMethods(decls: seq<Decl>)
    ensures Map(MethodOf, OrderedDecls(decls)) == Ordered(Map(MethodOf, decls), None)
  {
    SortMap(MethodOf, DeclLe, AddedLe, decls);
  }

  /** The rounded version sees the same boundaries as the requested one. */
  predicate SameBoundaries(ms: seq<Method>, v: int, w: int) {
    forall m :: m in ms ==>
                  && (AddedBy(m, v) <==> AddedBy(m, w))
                  && (m.span.RemovedAt(v) <==> m.span.RemovedAt(w))
  }

  function VersionedSlots(ms: seq<Method>, w: int): seq<Slot> {
    Map((m: Method) => VersionedSlot(m, w), Filter((m: Method) => AddedBy(m, w), ms))
  }

  lemma {:induction false} VersionedSlotsStep(ms: seq<Method>, w: int)
    requires ms != []
    ensures VersionedSlots(ms, w)
            == (if AddedBy(ms[0], w) then [VersionedSlot(ms[0], w)] else []) + VersionedSlots(ms[1..], w)
  {
    var p := (m: Method) => AddedBy(m, w);
    if AddedBy(ms[0], w) {
      assert Filter(p, ms)[1..] == Filter(p, ms[1..]);
    }
  }

  lemma {:induction false} SlotsCompare(ms: seq<Method>, v: nat, w: nat)
    requires SameBoundaries(ms, v, w)
    ensures |ClientSlots(ms, v)| == |VersionedSlots(ms, w)| + GapCount(ms, v)
    ensures GapCount(ms, v) == 0 ==> ClientSlots(ms, v) == VersionedSlots(ms, w)
  {
    if ms == [] {
    } else {
      assert ms[0] in ms && forall m :: m in ms[1..] ==> m in ms;
      VersionedSlotsStep(ms, w);
      SlotsCompare(ms[1..], v, w);
    }
  }

  lemma {:induction false} GapCountZero(ms: seq<Method>, v: int)
    ensures GapCount(ms, v) == 0 <==> forall m :: m in ms ==> !InGap(m, v)
  {
    if ms == [] {
    } else {
      GapCountZero(ms[1..], v);
      assert ms == [ms[0]] + ms[1..];
    }
  }

  /** The members of one class, as the client and as the library lay them out. */
  lemma {:induction false} MembersCompare(c: Class, v: nat, slots: seq<Slot>)
    requires LiveChain(c) && c.span.ExistsAt(v)
    requires slots == ClientSlots(Ordered(c.methods, None), v)
    ensures Closest(c, v).Some?
    ensures var w := Closest(c, v).value;
            && |slots| == |VersionedMembers(c.methods, w)| + GapCount(Ordered(c.methods, None), v)
            && (GapCount(Ordered(c.methods, None), v) == 0 ==> slots == VersionedMembers(c.methods, w))
  {
    VersionListWellFormed(c, v);
    var w := Closest(c, v).value;
    var ms := Ordered(c.methods, None);
    SortMembers(AddedLe, c.methods);
    forall m | m in ms
      ensures AddedBy(m, v) <==> AddedBy(m, w)
      ensures m.span.RemovedAt(v) <==> m.span.RemovedAt(w)
    {
      SpanUnchangedByRounding(c, m, v);
    }
    SlotsCompare(ms, v, w);
  }

  // ----- Whole structs -----

  /** Methods on the chain that are declared as removed before they are added, caught at `v`. */
  function ChainGaps(c: Cls, v: int): nat {
    if c.Base? then 0 else ChainGaps(c.parent, v) + GapCount(Ordered(c.methods, None), v)
  }

  lemma {:induction false} ClientMembersKept(h: Header, v: nat)
    requires h.Declared? && WellVersioned(h) && h.texts.ToSpan().ExistsAt(v)
    ensures forall d :: d in OrderedDecls(h.decls) ==> d.texts.Valid()
    ensures var kept := Preprocess(ClassLines(h.texts, OrderedDecls(h.decls)), Client(v), []);
            && kept.Some? && kept.value != []
            && kept.value[1..] == ClientSlots(Ordered(ToClass(h).methods, None), v)
  {
    SortMembers(DeclLe, h.decls);
    PreprocessClass(h.texts, OrderedDecls(h.decls), Client(v));
    MemberSlotsAreClientSlots(OrderedDecls(h.decls), v);
    OrderedDeclsMethods(h.decls);
  }

  /** The client struct against the library struct of the closest version, along the whole chain. */
  lemma {:induction false} StructsCompare(h: Header, v: nat)
    requires h.Declared? && WellVersioned(h) && LiveChain(ToClass(h)) && AliveChain(ToClass(h), v)
    ensures Closest(ToClass(h), v).Some?
    ensures var w := Closest(ToClass(h), v).value;
            && ClientStruct(h, v).Some? && LibraryStruct(ToClass(h), w).Some?
            && |ClientStruct(h, v).value| == |LibraryStruct(ToClass(h), w).value| + ChainGaps(ToClass(h), v)
            && (ChainGaps(ToClass(h), v) == 0 ==> ClientStruct(h, v) == LibraryStruct(ToClass(h), w))
  {
    hide Preprocess, ClassLines, Ordered, OrderedDecls, VersionedMembers, GapCount, ClientSlots;
    var c: Class := ToClass(h);
    ClientMembersKept(h, v);
    var slots := ClientSlots(Ordered(c.methods, None), v);
    MembersCompare(c, v, slots);
    var w := Closest(c, v).value;
    if h.parent.Declared? {
      StructsCompare(h.parent, v);
      ParentCoherence(c, v);
    }
  }

  lemma {:induction false} ChainGapsZero(c: Cls, v: int)
    ensures ChainGaps(c, v) == 0 <==> NoGaps(c, v)
  {
    if c.Cls? {
      ChainGapsZero(c.parent, v);
      GapCountZero(Ordered(c.methods, None), v);
      SortMembers(AddedLe, c.methods);
    }
  }

  /** No method on the chain is removed by `v` although it is added only later. */
  predicate NoGaps(c: Cls, v: int) {
    c.Cls? ==> (forall m :: m in c.methods ==> !InGap(m, v)) && NoGaps(c.parent, v)
  }

  lemma {:induction false} AbsentClass(h: Header, v: nat)
    requires h.Declared? && WellVersioned(h) && !h.texts.ToSpan().ExistsAt(v)
    ensures ClientStruct(h, v) == None
  {
    SortMembers(DeclLe, h.decls);
    PreprocessClass(h.texts, OrderedDecls(h.decls), Client(v));
  }

  lemma {:induction false} PresentClass(h: Header, v: nat)
    requires h.Declared? && WellVersioned(h) && h.texts.ToSpan().ExistsAt(v)
    ensures ClientStruct(h, v).Some? <==> ClientStruct(h.parent, v).Some?
  {
    ClientMembersKept(h, v);
    hide Preprocess, ClassLines, OrderedDecls, ClientSlots, Ordered;
  }

  /** A client gets a complete struct exactly when the class and all its ancestors exist at its version. */
  lemma {:induction false} DeclaredIff(h: Header, v: nat)
    requires h.Declared? && WellVersioned(h)
    ensures ClientStruct(h, v).Some? <==> AliveChain(ToClass(h), v)
  {
    if !h.texts.ToSpan().ExistsAt(v) {
      AbsentClass(h, v);
    } else {
      PresentClass(h, v);
      hide ClientStruct;
      if h.parent.Declared? {
        DeclaredIff(h.parent, v);
      } else {
        RootDeclared(h.parent, v);
      }
    }
  }

  lemma {:induction false} RootDeclared(h: Header, v: nat)
    requires h.Root?
    ensures ClientStruct(h, v) == Some([RootStruct(h.name)])
  {
  }

  /** A client built for `v` gets a struct, and the library's struct for the closest version has the same fields. */
  predicate Compatible(h: Header, v: nat)
    requires h.Declared? && WellVersioned(h) && LiveChain(ToClass(h))
  {
    var c: Class := ToClass(h);
    && Closest(c, v).Some? && ClientStruct(h, v).Some?
    && ClientStruct(h, v) == LibraryStruct(c, Closest(c, v).value)
  }

  /**
   Client and library agree exactly when the class and its ancestors exist at the client's version
   and no method on the chain is, at that version, removed although not yet added.
   */
  lemma {:induction false} BinaryCompatibleIff(h: Header, v: nat)
    requires h.Declared? && WellVersioned(h) && LiveChain(ToClass(h))
    ensures Compatible(h, v) <==> AliveChain(ToClass(h), v) && NoGaps(ToClass(h), v)
  {
    DeclaredIff(h, v);
    if AliveChain(ToClass(h), v) {
      StructsCompare(h, v);
      ChainGapsZero(ToClass(h), v);
    }
    hide ClientStruct, LibraryStruct, AliveChain, NoGaps, Closest, ChainGaps;
  }

  /** Members that see the same boundaries at two versions fill the same slots. */
  lemma {:induction false} SlotsAlike(ms: seq<Method>, v: int, v': int)
    requires SameBoundaries(ms, v, v')
    ensures ClientSlots(ms, v) == ClientSlots(ms, v')
  {
    if ms == [] {
    } else {
      assert ms[0] in ms && forall m :: m in ms[1..] ==> m in ms;
      SlotsAlike(ms[1..], v, v');
    }
  }

  lemma {:induction false} RoundedAlike(c: Class, v: nat, v': nat)
    requires LiveChain(c) && c.span.ExistsAt(v) && c.span.ExistsAt(v')
    requires Closest(c, v) == Closest(c, v')
    ensures ClientSlots(Ordered(c.methods, None), v) == ClientSlots(Ordered(c.methods, None), v')
  {
    var ms := Ordered(c.methods, None);
    forall m | m in ms
      ensures AddedBy(m, v) <==> AddedBy(m, v')
      ensures m.span.RemovedAt(v) <==> m.span.RemovedAt(v')
    {
      SortMember(AddedLe, c.methods, m);
      SpanUnchangedByRounding(c, m, v);
      SpanUnchangedByRounding(c, m, v');
    }
    hide *;
    assert SameBoundaries(ms, v, v');
    SlotsAlike(ms, v, v');
  }

  lemma {:induction false} AliveAlike(h: Header, v: nat, v': nat)
    requires h.Declared? && WellVersioned(h) && LiveChain(ToClass(h))
    requires AliveChain(ToClass(h), v) && AliveChain(ToClass(h), v')
    requires Closest(ToClass(h), v) == Closest(ToClass(h), v')
    ensures ClientStruct(h, v) == ClientStruct(h, v')
  {
    hide Preprocess, ClassLines, Ordered, OrderedDecls, ClientSlots, Tag, Closest, MethodOf, Map;
    var c: Class := ToClass(h);
    ClientMembersKept(h, v);
    ClientMembersKept(h, v');
    RoundedAlike(c, v, v');
    if h.parent.Declared? {
      ParentCoherence(c, v);
      ParentCoherence(c, v');
      AliveAlike(h.parent, v, v');
    }
  }

  /** Two clients whose versions round alike see the same, exactly when both or neither get a struct. */
  lemma {:induction false} SameRoundingSameStructIff(h: Header, v: nat, v': nat)
    requires h.Declared? && WellVersioned(h) && LiveChain(ToClass(h))
    requires Closest(ToClass(h), v) == Closest(ToClass(h), v')
    ensures ClientStruct(h, v) == ClientStruct(h, v')
            <==> (AliveChain(ToClass(h), v) <==> AliveChain(ToClass(h), v'))
  {
    DeclaredIff(h, v);
    DeclaredIff(h, v');
    if AliveChain(ToClass(h), v) && AliveChain(ToClass(h), v') {
      AliveAlike(h, v, v');
    }
    hide *;
  }

  // ----- Two inputs on which client and library disagree -----

  function Lone(texts: Texts, decls: seq<Decl>, parent: Header): Header {
    Declared("CefExample", texts, decls, parent)
  }

  const UNVERSIONED: Texts := Texts(None, None)

  /** A method added at 13400 and removed at 13300, seen at 13350. */
  lemma {:induction false} GapExample()
    ensures var h := Lone(UNVERSIONED, [Decl("F", Texts(Some("13400"), Some("13300")))], Root("CefBaseRefCounted"));
            && WellVersioned(h) && LiveChain(ToClass(h)) && AliveChain(ToClass(h), 13350)
            && !NoGaps(ToClass(h), 13350) && !Compatible(h, 13350)
  {
    var d := Decl("F", Texts(Some("13400"), Some("13300")));
    var h := Lone(UNVERSIONED, [d], Root("CefBaseRefCounted"));
    ExampleFaithful();
    hide AsNumeric, AsVariable, CValue;
    var m := MethodOf(d);
    assert Map(MethodOf, [d])[0] == m;
    assert ToClass(h).methods == [m];
    assert InGap(m, 13350);
    assert m in ToClass(h).methods;
    BinaryCompatibleIff(h, 13350);
  }

  /** The library has a struct for a version of a class from the first version of its parent on. */
  lemma {:induction false} LibraryOfChild(c: Class, w: nat)
    requires c.parent.Cls? && c.parent.parent.Base? && LiveChain(c) && c.parent.span.VersionAdded() <= w
    ensures LibraryStruct(c, w).Some?
  {
    VersionListWellFormed(c.parent, w);
    var u := Closest(c.parent, w).value;
    assert LibraryStruct(c.parent.parent, u).Some?;
    assert LibraryStruct(c.parent, u).Some?;
  }

  const REMOVED_PARENT: Header := Lone(Texts(None, Some("13400")), [], Root("CefBaseRefCounted"))

  function RemovedParentClass(): Class {
    Cls("CefExample", Span(None, None), [],
        Cls("CefExample", Span(None, Some(13400)), [], Base("CefBaseRefCounted")))
  }

  lemma {:induction false} RemovedParentParsed()
    ensures WellVersioned(Lone(UNVERSIONED, [], REMOVED_PARENT))
    ensures ToClass(Lone(UNVERSIONED, [], REMOVED_PARENT)) == RemovedParentClass()
  {
    ExampleFaithful();
    hide AsNumeric, AsVariable, CValue;
    assert Map(MethodOf, []) == [];
  }

  /** A class whose parent is removed at 13400, seen at 13400: only the library still has a struct for it. */
  lemma {:induction false} RemovedParentExample()
    ensures var h, c := Lone(UNVERSIONED, [], REMOVED_PARENT), RemovedParentClass();
            && WellVersioned(h) && ToClass(h) == c && LiveChain(c)
            && NoGaps(c, 13400) && !AliveChain(c, 13400)
            && ClientStruct(h, 13400) == None
            && Closest(c, 13400).Some? && LibraryStruct(c, Closest(c, 13400).value).Some?
  {
    var h, c := Lone(UNVERSIONED, [], REMOVED_PARENT), RemovedParentClass();
    RemovedParentParsed();
    assert LiveChain(c.parent) && NoGaps(c.parent, 13400) && !c.parent.span.ExistsAt(13400);
    assert LiveChain(c) && NoGaps(c, 13400) && !AliveChain(c, 13400);
    VersionListWellFormed(c, 13400);
    hide *;
    DeclaredIff(h, 13400);
    LibraryOfChild(c, Closest(c, 13400).value);
  }

  lemma {:induction false} ExampleFaithful()
    ensures Faithful("13300") && AsNumeric("13300") == Some(13300)
    ensures Faithful("13400") && AsNumeric("13400") == Some(13400)
  {
    VersionNumeral("13300", 13300);
    VersionNumeral("13400", 13400);
  }
}
