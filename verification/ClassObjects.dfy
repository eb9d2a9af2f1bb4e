/**
 The `obj_class` objects of tools/cef_parser.py. A class object caches its list of versions and
 its ordered methods; asking for versions walks up the parents and fills their caches too. The
 caches never change an answer.
 */
module ClassObjects {
  import opened ClassVersions
  import opened MemberOrder
  import opened Options

  /** Clamping to the class's lifetime, step by step. */
  method ClampVersions(span: Span, all: set<nat>) returns (versions: set<nat>)
    ensures versions == Clamp(span, all)
  {
    versions := all;
    if span.added.Some? {
      versions := set x | x in versions && x >= span.added.value;
      if span.added.value !in versions {
        versions := versions + {span.added.value};
      }
    }
    if span.removed.Some? {
      versions := set x | x in versions && x < span.removed.value;
    }
  }

  /** `_get_all_versions` */
  method CollectVersions(funcs: seq<Method>) returns (versions: set<nat>)
    ensures versions == MethodVersions(funcs)
  {
    versions := {0};
    assert funcs[0..] == funcs;
    for i := 0 to |funcs|
      invariant versions + MethodVersions(funcs[i..]) == MethodVersions(funcs)
      invariant 0 in versions
    {
      MethodVersionsStep(funcs, i);
      if funcs[i].span.HasVersion() {
        versions := versions + {funcs[i].span.VersionAdded()};
        versions := versions + {funcs[i].span.VersionRemoved()};
      }
    }
  }

  method ComputeVersions(span: Span, inherited: seq<nat>, methods: seq<Method>) returns (r: Option<seq<nat>>)
    ensures r == VersionsFrom(span, inherited, methods)
  {
    var versions: set<nat> := {};
    versions := versions + Elements(inherited);
    assert versions == Elements(inherited);
    var own := CollectVersions(methods);
    versions := versions + own;
    versions := ClampVersions(span, versions);
    if versions == {} {
      return None;
    }
    r := Some(Ascending(versions));
  }

  class ObjClass {
    const name: string
    const span: Span
    const parentName: string
    const parentCls: ObjClass?
    const virtualfuncs: seq<Method>
    const hasVersionedFuncs: bool
    var allversions: Option<seq<nat>>
    var virtualfuncsOrdered: Option<seq<Method>>

    ghost const raws: seq<RawMethod>
    ghost const chain: Class
    ghost const repr: set<ObjClass>

    ghost predicate Valid()
      reads this, repr
      ensures Valid() ==> this in repr
      decreases chain
    {
      && this in repr
      && Parses(raws) && virtualfuncs == ParseMethods(raws)
      && hasVersionedFuncs == HasVersionedFuncs(raws)
      && chain.name == name && chain.span == span && chain.methods == virtualfuncs
      && (parentCls == null ==> chain.parent == Base(parentName))
      && (parentCls != null ==>
            && parentCls in repr && parentCls.repr <= repr && this !in parentCls.repr
            && chain.parent == parentCls.chain
            && parentCls.Valid())
      && (allversions.Some? ==> allversions == AllVersions(chain))
      && (virtualfuncsOrdered.Some? ==> virtualfuncsOrdered.value == Ordered(virtualfuncs, None))
    }

    /** Methods are parsed from their comments; a method whose raw text mentions a version is noticed. */
    constructor (name: string, span: Span, parentName: string, parentCls: ObjClass?, raws: seq<RawMethod>)
      requires parentCls != null ==> parentCls.Valid()
      requires Parses(raws)
      ensures Valid() && allversions == None && virtualfuncsOrdered == None
      ensures fresh(repr - if parentCls == null then {} else parentCls.repr)
      ensures chain == Cls(name, span, ParseMethods(raws),
                           if parentCls == null then Base(parentName) else parentCls.chain)
      ensures this.raws == raws && this.parentCls == parentCls
      ensures repr == {this} + if parentCls == null then {} else parentCls.repr
    {
      hide AllVersions, Ordered, MentionsVersion, ParseMethod;
      var found := false;
      for i := 0 to |raws|
        invariant found <==> exists j :: 0 <= j < i && MentionsVersion(raws[j].attrib)
      {
        if !found && MentionsVersion(raws[i].attrib) {
          found := true;
        }
      }
      this.name := name;
      this.span := span;
      this.parentName := parentName;
      this.parentCls := parentCls;
      this.virtualfuncs := ParseMethods(raws);
      this.hasVersionedFuncs := found;
      this.allversions := None;
      this.virtualfuncsOrdered := None;
      this.raws := raws;
      this.chain := Cls(name, span, ParseMethods(raws),
                        if parentCls == null then Base(parentName) else parentCls.chain);
      this.repr := {this} + if parentCls == null then {} else parentCls.repr;
    }

    /** Each cache is as before, or now holds what it stands for. */
    twostate predicate CachesKept()
      reads this
    {
      && (allversions == old(allversions) || allversions == AllVersions(chain))
      && (virtualfuncsOrdered == old(virtualfuncsOrdered) || virtualfuncsOrdered == Some(Ordered(virtualfuncs, None)))
    }

    /** Whatever was asked of other classes, this one is still valid. */
    twostate lemma {:induction false} StillValid()
      requires old(Valid())
      requires forall o :: o in repr ==> o.CachesKept()
      ensures Valid()
      decreases chain
    {
      hide AllVersions, Ordered, HasVersionedFuncs, Parses;
      if parentCls != null {
        parentCls.StillValid();
      }
    }

    /** None where `assert len(versions) > 0` fails here or in a parent. */
    method GetAllVersions() returns (r: Option<seq<nat>>)
      requires Valid()
      modifies repr
      ensures Valid() && forall o :: o in repr ==> o.CachesKept()
      ensures r == AllVersions(chain)
      ensures r.Some? ==> allversions == r
      decreases chain
    {
      hide Ordered, HasVersionedFuncs, Parses, VersionsFrom;
      if allversions.Some? {
        return allversions;
      }
      var inherited: Option<seq<nat>> := Some([]);
      if parentCls != null {
        inherited := parentCls.GetAllVersions();
      }
      if inherited.None? {
        return None;
      }
      r := ComputeVersions(span, inherited.value, virtualfuncs);
      allversions := r;
    }

    /** None where `get_all_versions` raises, otherwise the rounded version, if there is one. */
    method GetClosestVersion(version: int) returns (r: Option<Option<nat>>)
      requires Valid()
      modifies repr
      ensures Valid() && forall o :: o in repr ==> o.CachesKept()
      ensures r.Some? <==> LiveChain(chain)
      ensures r.Some? ==> r.value == Closest(chain, version)
    {
      AllVersionsSucceedsIff(chain);
      var versions := GetAllVersions();
      if versions.None? {
        return None;
      }
      r := Some(FindClosestNotGreater(versions.value, version));
    }

    method GetVirtualFuncs(versionOrder: bool, version: Option<int>) returns (r: seq<Method>)
      requires Valid()
      modifies this
      ensures Valid() && CachesKept()
      ensures r == VirtualFuncs(raws, versionOrder, version)
      ensures version.None? || version.value >= 0 ==>
                r == if versionOrder then Ordered(virtualfuncs, version) else virtualfuncs
    {
      hide AllVersions, Ordered, HasVersionedFuncs, Parses;
      FastPathIff(raws, version);
      if versionOrder && hasVersionedFuncs {
        if version.None? {
          if virtualfuncsOrdered.None? {
            var ordered := VersionOrderFuncs(virtualfuncs, None);
            virtualfuncsOrdered := Some(ordered);
          }
          return virtualfuncsOrdered.value;
        }
        r := VersionOrderFuncs(virtualfuncs, version);
        return;
      }
      r := virtualfuncs;
    }
  }

  /** All objects that the classes of a header consist of; they may share ancestors. */
  ghost function Forest(classes: seq<ObjClass>): set<ObjClass>
    reads classes
  {
    set c, o | c in classes && o in c.repr :: o
  }

  /** The versions of every class of a header, in turn: caches filled for one class do not disturb another. */
  method AllVersionsOf(classes: seq<ObjClass>) returns (r: seq<Option<seq<nat>>>)
    requires forall c :: c in classes ==> c.Valid()
    modifies Forest(classes)
    ensures forall c :: c in classes ==> c.Valid()
    ensures |r| == |classes| && forall i :: 0 <= i < |r| ==> r[i] == AllVersions(classes[i].chain)
  {
    r := [];
    for i := 0 to |classes|
      invariant forall c :: c in classes ==> c.Valid()
      invariant |r| == i && forall j :: 0 <= j < i ==> r[j] == AllVersions(classes[j].chain)
    {
      var versions := AskOne(classes, i);
      r := r + [versions];
    }
  }

  method AskOne(classes: seq<ObjClass>, i: nat) returns (r: Option<seq<nat>>)
    requires i < |classes| && forall c :: c in classes ==> c.Valid()
    modifies Forest(classes)
    ensures forall c :: c in classes ==> c.Valid()
    ensures r == AllVersions(classes[i].chain)
  {
    hide AllVersions, Ordered;
    assert classes[i].repr <= Forest(classes);
    label before:
    r := classes[i].GetAllVersions();
    forall c | c in classes
      ensures c.Valid()
    {
      forall o | o in c.repr
        ensures o.CachesKept@before()
      {
        if o in classes[i].repr {
          assert o.CachesKept();
        }
      }
      c.StillValid@before();
    }
  }
}
