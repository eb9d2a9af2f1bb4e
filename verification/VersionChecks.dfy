/**
 The `#if` checks that guard versioned API: how the translator emits them, what the macros of
 include/cef_api_hash.h make of them, and what is left of a guarded header after preprocessing
 for a given CEF_API_VERSION.
 */
module VersionChecks {
  import opened ClassVersions
  import opened Options
  import opened VersionText

  /** The texts of the `added` and `removed` attributes of a class or method. */
  datatype Texts = Texts(added: Option<string>, removed: Option<string>) {
    predicate HasVersion() {
      added.Some? || removed.Some?
    }

    /** The tool accepts the texts as versions. */
    predicate Valid() {
      && (added.Some? ==> AsNumeric(added.value).Some?)
      && (removed.Some? ==> AsNumeric(removed.value).Some?)
    }

    /** The preprocessor reads the same numbers as the tool. */
    predicate AllFaithful() {
      && (added.Some? ==> Faithful(added.value))
      && (removed.Some? ==> Faithful(removed.value))
    }

    function ToSpan(): Span
      requires Valid()
    {
      Span(if added.Some? then AsNumeric(added.value) else None,
           if removed.Some? then AsNumeric(removed.value) else None)
    }
  }

  /** CEF_API_ADDED(v), CEF_API_REMOVED(v), CEF_API_RANGE(va, vr); arguments as emitted. */
  datatype Check = Added(v: string) | Removed(v: string) | Range(va: string, vr: string)

  function Variable(text: string): string
    requires AsNumeric(text).Some?
  {
    AsVariable(text).value
  }

  /** `get_version_check` */
  function VersionCheck(t: Texts): Check
    requires t.HasVersion() && t.Valid()
  {
    if t.added.Some? && t.removed.Some? then Range(Variable(t.added.value), Variable(t.removed.value))
    else if t.added.Some? then Added(Variable(t.added.value))
    else Removed(Variable(t.removed.value))
  }

  /** The text of a check, as it appears after `#if`. */
  function CheckText(c: Check): string {
    match c
    case Added(v) => "CEF_API_ADDED(" + v + ")"
    case Removed(v) => "CEF_API_REMOVED(" + v + ")"
    case Range(va, vr) => "CEF_API_RANGE(" + va + ", " + vr + ")"
  }

  lemma {:induction false} VariableHasNoComma(text: string)
    requires AsNumeric(text).Some?
    ensures ',' !in Variable(text)
  {
  }

  lemma {:induction false} SameBeforeComma(a: string, a': string, b: string, b': string)
    requires ',' !in a && ',' !in a' && a + ", " + b == a' + ", " + b'
    ensures a == a' && b == b'
  {
    var s, s' := a + ", " + b, a' + ", " + b';
    assert s[|a|] == ',' && s'[|a'|] == ',';
    assert s[..|a|] == a && s'[..|a'|] == a';
    assert s[|a| + 2..] == b && s'[|a'| + 2..] == b';
  }

  /** The arguments can be read off the text of a check. */
  lemma {:induction false} CheckTextParts(c: Check)
    ensures var s := CheckText(c);
            match c
            case Added(v) => |s| == |v| + 15 && s[..14] == "CEF_API_ADDED("
                             && s[8] == 'A' && s[14..|s| - 1] == v && s[|s| - 1] == ')'
            case Removed(v) => |s| == |v| + 17 && s[..16] == "CEF_API_REMOVED("
                               && s[8] == 'R' && s[9] == 'E' && s[16..|s| - 1] == v && s[|s| - 1] == ')'
            case Range(va, vr) => |s| >= 15 && s[..14] == "CEF_API_RANGE("
                                  && s[8] == 'R' && s[9] == 'A' && s[14..|s| - 1] == va + ", " + vr && s[|s| - 1] == ')'
  {
  }

  /** The source compares checks as texts: equal texts are equal checks. */
  lemma {:induction false} CheckTextInjective(c: Check, c': Check)
    requires c.Range? ==> ',' !in c.va
    requires c'.Range? ==> ',' !in c'.va
    requires CheckText(c) == CheckText(c')
    ensures c == c'
  {
    CheckTextParts(c);
    CheckTextParts(c');
    if c.Range? {
      SameBeforeComma(c.va, c'.va, c.vr, c'.vr);
    }
  }

  /** Comparing two emitted checks as texts compares what they check. */
  lemma {:induction false} EmittedTextsEqualIff(t: Texts, t': Texts)
    requires t.HasVersion() && t.Valid() && t'.HasVersion() && t'.Valid()
    ensures CheckText(VersionCheck(t)) == CheckText(VersionCheck(t')) <==> VersionCheck(t) == VersionCheck(t')
  {
    if t.added.Some? {
      VariableHasNoComma(t.added.value);
    }
    if t'.added.Some? {
      VariableHasNoComma(t'.added.value);
    }
    if CheckText(VersionCheck(t)) == CheckText(VersionCheck(t')) {
      CheckTextInjective(VersionCheck(t), VersionCheck(t'));
    }
  }

  // ----- The macros -----

  /** The build that includes the header: libcef itself, or a client with its CEF_API_VERSION. */
  datatype Build = Library | Client(version: nat)

  /** `_CEF_AV_GE(v)`; None where the literal does not compile. */
  function AtLeast(build: Build, v: string): Option<bool> {
    if build.Library? then Some(true)
    else if CValue(v).None? then None
    else Some(build.version >= CValue(v).value)
  }

  /** `_CEF_AV_LT(v)` */
  function Below(build: Build, v: string): Option<bool> {
    if build.Library? then Some(true)
    else if CValue(v).None? then None
    else Some(build.version < CValue(v).value)
  }

  /** The value of a check in an `#if`. */
  function Holds(c: Check, build: Build): Option<bool> {
    match c
    case Added(v) => AtLeast(build, v)
    case Removed(v) => Below(build, v)
    case Range(va, vr) =>
      if AtLeast(build, va).None? || Below(build, vr).None? then None
      else Some(AtLeast(build, va).value && Below(build, vr).value)
  }

  /** The library build contains all versions, a client only what exists at its own. */
  predicate Present(span: Span, build: Build) {
    build.Library? || span.ExistsAt(build.version)
  }

  /** An emitted check is true exactly where the tool says that the API exists. */
  lemma {:induction false} CheckMeansExists(t: Texts, build: Build)
    requires t.HasVersion() && t.Valid() && t.AllFaithful()
    ensures Holds(VersionCheck(t), build) == Some(Present(t.ToSpan(), build))
  {
  }

  /** The emitted check answers at every client version what the tool computes. */
  ghost predicate MeansExists(t: Texts)
    requires t.HasVersion() && t.Valid()
  {
    forall version: nat :: Holds(VersionCheck(t), Client(version)) == Some(t.ToSpan().ExistsAt(version))
  }

  /** For a single bound the emitted check means what the tool computes only if the literal is faithful. */
  lemma {:induction false} SingleCheckMeansExistsIff(t: Texts)
    requires t.Valid() && (t.added.Some? <==> t.removed.None?)
    ensures MeansExists(t) <==> t.AllFaithful()
  {
    if t.AllFaithful() {
      forall version: nat
        ensures Holds(VersionCheck(t), Client(version)) == Some(t.ToSpan().ExistsAt(version))
      {
        CheckMeansExists(t, Client(version));
      }
    } else {
      var text := if t.added.Some? then t.added.value else t.removed.value;
      var c := CValue(Variable(text));
      var n := AsNumeric(text).value;
      var witnessed := if c.Some? && c.value < n then c.value else n;
      assert Holds(VersionCheck(t), Client(witnessed)) != Some(t.ToSpan().ExistsAt(witnessed));
    }
  }

  /** No version satisfies the range, neither as the tool nor as the preprocessor reads it. */
  predicate EmptyRange(added: string, removed: string) {
    && AsNumeric(added).Some? && AsNumeric(removed).Some? && AsNumeric(added).value >= AsNumeric(removed).value
    && CValue(Variable(added)).Some? && CValue(Variable(removed)).Some?
    && CValue(Variable(added)).value >= CValue(Variable(removed)).value
  }

  predicate InRange(from: nat, to: nat, version: nat) {
    from <= version < to
  }

  /** Two half-open ranges hold the same numbers exactly when they are equal, or both empty. */
  lemma {:induction false} SameRangeIff(a: nat, b: nat, a': nat, b': nat)
    ensures (forall v: nat :: InRange(a, b, v) <==> InRange(a', b', v))
            <==> (a == a' && b == b') || (a >= b && a' >= b')
  {
    if forall v: nat :: InRange(a, b, v) <==> InRange(a', b', v) {
      if a < b {
        assert InRange(a, b, a) && InRange(a, b, b - 1) && !InRange(a, b, b);
      }
      if a' < b' {
        assert InRange(a', b', a') && InRange(a', b', b' - 1) && !InRange(a', b', b');
      }
    }
  }

  lemma {:induction false} RangeHolds(t: Texts, version: nat)
    requires t.Valid() && t.added.Some? && t.removed.Some?
    ensures var ca, cr := CValue(Variable(t.added.value)), CValue(Variable(t.removed.value));
            Holds(VersionCheck(t), Client(version))
            == if ca.None? || cr.None? then None else Some(InRange(ca.value, cr.value, version))
    ensures t.ToSpan().ExistsAt(version)
            <==> InRange(AsNumeric(t.added.value).value, AsNumeric(t.removed.value).value, version)
  {
  }

  lemma {:induction false} RangeMeansExistsIff(t: Texts)
    requires t.Valid() && t.added.Some? && t.removed.Some?
    ensures var ca, cr := CValue(Variable(t.added.value)), CValue(Variable(t.removed.value));
            var na, nr := AsNumeric(t.added.value).value, AsNumeric(t.removed.value).value;
            MeansExists(t) <==>
              && ca.Some? && cr.Some?
              && forall v: nat :: InRange(ca.value, cr.value, v) <==> InRange(na, nr, v)
  {
    RangeHolds(t, 0);
    forall version: nat {
      RangeHolds(t, version);
    }
    hide VersionCheck, Holds, CValue, AsNumeric, InRange, Variable;
    if MeansExists(t) {
      assert Holds(VersionCheck(t), Client(0)).Some?;
      forall v: nat
        ensures InRange(CValue(Variable(t.added.value)).value, CValue(Variable(t.removed.value)).value, v)
          <==> InRange(AsNumeric(t.added.value).value, AsNumeric(t.removed.value).value, v)
      {
        RangeHolds(t, v);
        assert Holds(VersionCheck(t), Client(v)) == Some(t.ToSpan().ExistsAt(v));
      }
    }
  }

  /** For a range the emitted check means what the tool computes exactly with faithful literals, or for empty ranges. */
  lemma {:induction false} RangeCheckMeansExistsIff(t: Texts)
    requires t.Valid() && t.added.Some? && t.removed.Some?
    ensures MeansExists(t) <==> t.AllFaithful() || EmptyRange(t.added.value, t.removed.value)
  {
    RangeMeansExistsIff(t);
    var ca, cr := CValue(Variable(t.added.value)), CValue(Variable(t.removed.value));
    if ca.Some? && cr.Some? {
      SameRangeIff(ca.value, cr.value, AsNumeric(t.added.value).value, AsNumeric(t.removed.value).value);
    }
    hide MeansExists, CValue, InRange;
  }

  // ----- The versions a client can have -----

  const NEXT: nat := 999998
  const EXPERIMENTAL: nat := 999999

  /** The header refuses any other CEF_API_VERSION; `min` and `last` are the first and last released one. */
  predicate Admitted(min: nat, last: nat, version: nat) {
    min <= version <= last || version == NEXT || version == EXPERIMENTAL
  }

  /** The check answers at every version a client can have what the tool computes. */
  ghost predicate MeansExistsForClients(t: Texts, min: nat, last: nat)
    requires t.HasVersion() && t.Valid()
  {
    forall version: nat :: Admitted(min, last, version) ==>
                             Holds(VersionCheck(t), Client(version)) == Some(t.ToSpan().ExistsAt(version))
  }

  /** The bounds of a check: a missing lower bound is 0, a missing upper bound lies above all versions. */
  datatype Bounds = Bounds(from: nat, to: nat)

  function ToolBounds(t: Texts): Bounds
    requires t.Valid()
  {
    Bounds(if t.added.Some? then AsNumeric(t.added.value).value else 0,
           if t.removed.Some? then AsNumeric(t.removed.value).value else EXPERIMENTAL + 1)
  }

  predicate Compiles(t: Texts)
    requires t.Valid()
  {
    && (t.added.Some? ==> CValue(Variable(t.added.value)).Some?)
    && (t.removed.Some? ==> CValue(Variable(t.removed.value)).Some?)
  }

  function CBounds(t: Texts): Bounds
    requires t.Valid() && Compiles(t)
  {
    Bounds(if t.added.Some? then CValue(Variable(t.added.value)).value else 0,
           if t.removed.Some? then CValue(Variable(t.removed.value)).value else EXPERIMENTAL + 1)
  }

  /** A bound moved into the released versions. */
  function Confine(min: nat, last: nat, bound: nat): nat {
    if bound < min then min else if bound > last then last + 1 else bound
  }

  /** The two ranges agree on the released versions and on the two named ones. */
  predicate AgreeForClients(b: Bounds, b': Bounds, min: nat, last: nat) {
    && (|| (&& Confine(min, last, b.from) == Confine(min, last, b'.from)
            && Confine(min, last, b.to) == Confine(min, last, b'.to))
        || (&& Confine(min, last, b.from) >= Confine(min, last, b.to)
            && Confine(min, last, b'.from) >= Confine(min, last, b'.to)))
    && (InRange(b.from, b.to, NEXT) <==> InRange(b'.from, b'.to, NEXT))
    && (InRange(b.from, b.to, EXPERIMENTAL) <==> InRange(b'.from, b'.to, EXPERIMENTAL))
  }

  lemma {:induction false} ConfinedRange(b: Bounds, min: nat, last: nat, v: nat)
    requires min <= v <= last
    ensures InRange(b.from, b.to, v) <==> InRange(Confine(min, last, b.from), Confine(min, last, b.to), v)
  {
  }

  lemma {:induction false} AgreeIff(b: Bounds, b': Bounds, min: nat, last: nat)
    requires min <= last
    ensures AgreeForClients(b, b', min, last)
            <==> forall v: nat :: Admitted(min, last, v) ==>
                                    (InRange(b.from, b.to, v) <==> InRange(b'.from, b'.to, v))
  {
    var f, t, f', t' := Confine(min, last, b.from), Confine(min, last, b.to),
                        Confine(min, last, b'.from), Confine(min, last, b'.to);
    SameRangeIff(f, t, f', t');
    if forall v: nat :: Admitted(min, last, v) ==> (InRange(b.from, b.to, v) <==> InRange(b'.from, b'.to, v)) {
      assert Admitted(min, last, NEXT) && Admitted(min, last, EXPERIMENTAL);
      forall v: nat
        ensures InRange(f, t, v) <==> InRange(f', t', v)
      {
        if min <= v <= last {
          assert Admitted(min, last, v);
          ConfinedRange(b, min, last, v);
          ConfinedRange(b', min, last, v);
        }
      }
    }
    if AgreeForClients(b, b', min, last) {
      forall v: nat | Admitted(min, last, v)
        ensures InRange(b.from, b.to, v) <==> InRange(b'.from, b'.to, v)
      {
        if min <= v <= last {
          ConfinedRange(b, min, last, v);
          ConfinedRange(b', min, last, v);
        }
      }
    }
  }

  lemma {:induction false} ClientHolds(t: Texts, version: nat)
    requires t.HasVersion() && t.Valid() && version <= EXPERIMENTAL
    ensures Holds(VersionCheck(t), Client(version))
            == if Compiles(t) then Some(InRange(CBounds(t).from, CBounds(t).to, version)) else None
    ensures t.ToSpan().ExistsAt(version) <==> InRange(ToolBounds(t).from, ToolBounds(t).to, version)
  {
  }

  /**
   For the versions a client can have, the emitted check means what the tool computes exactly when
   its literals compile and no such version lies where the two readings of the bounds differ.
   */
  lemma {:induction false} ClientCheckMeansExistsIff(t: Texts, min: nat, last: nat)
    requires t.HasVersion() && t.Valid() && min <= last <= EXPERIMENTAL
    ensures MeansExistsForClients(t, min, last)
            <==> Compiles(t) && AgreeForClients(CBounds(t), ToolBounds(t), min, last)
  {
    forall version: nat | Admitted(min, last, version)
      ensures Holds(VersionCheck(t), Client(version))
              == if Compiles(t) then Some(InRange(CBounds(t).from, CBounds(t).to, version)) else None
      ensures t.ToSpan().ExistsAt(version) <==> InRange(ToolBounds(t).from, ToolBounds(t).to, version)
    {
      ClientHolds(t, version);
    }
    assert Admitted(min, last, NEXT);
    hide VersionCheck, Holds, ToolBounds, CBounds, InRange, Admitted, AgreeForClients, Compiles;
    if Compiles(t) {
      AgreeIff(CBounds(t), ToolBounds(t), min, last);
    }
    if MeansExistsForClients(t, min, last) {
      assert Holds(VersionCheck(t), Client(NEXT)).Some?;
      forall v: nat | Admitted(min, last, v)
        ensures InRange(CBounds(t).from, CBounds(t).to, v) <==> InRange(ToolBounds(t).from, ToolBounds(t).to, v)
      {
        assert Holds(VersionCheck(t), Client(v)) == Some(t.ToSpan().ExistsAt(v));
      }
    }
  }

  lemma {:induction false} OctalValues()
    ensures ValueIn(10, "014500") == 14500 && ValueIn(8, "014500") == 6464
  {
    assert "014500" == "01450" + ['0'];
    FiveDigits(10, "01450");
    FiveDigits(8, "01450");
    ValueLast(10, "01450", '0');
    ValueLast(8, "01450", '0');
  }

  lemma {:induction false} OctalReadings()
    ensures AsNumeric("014500") == Some(14500) && AsVariable("014500") == Some("014500")
    ensures CValue("014500") == Some(6464)
  {
    var s := "014500";
    OctalValues();
    hide ValueIn;
    assert Upper(s) == s && Tracked(s) && IsOctal(s);
    assert !IsDigit(EXP_NAME[0]) && !IsDigit(NEXT_NAME[0]);
    assert s[0] == '0' && ("CEF_" + EXP_NAME)[0] == 'C' && ("CEF_" + NEXT_NAME)[0] == 'C';
  }

  /** 014500 is 14500 to the tool and 6464 to the preprocessor: a client built for 13300 gets the API too early. */
  lemma {:induction false} OctalExample()
    ensures var t := Texts(Some("014500"), None);
            && t.HasVersion() && t.Valid()
            && Holds(VersionCheck(t), Client(13300)) == Some(true) && !t.ToSpan().ExistsAt(13300)
  {
    OctalReadings();
    hide AsNumeric, AsVariable, CValue;
  }

  // ----- Preprocessing -----

  /** One slot of a generated struct. */
  datatype Slot = BaseMember | Function(name: string) | Placeholder(name: string)

  datatype Line = If(check: Check) | Elif(check: Check) | Else | Endif | Text(slot: Slot)

  /** One open conditional: whether the text around it is kept, a branch was taken, this branch is kept. */
  datatype Cond = Cond(outer: bool, taken: bool, active: bool)

  predicate Active(stack: seq<Cond>) {
    stack == [] || stack[0].active
  }

  /** What remains of the text in a build; None for an error in the conditionals. */
  function Preprocess(lines: seq<Line>, build: Build, stack: seq<Cond>): Option<seq<Slot>>
    decreases lines
  {
    if lines == [] then (if stack == [] then Some([]) else None) else
      var rest := lines[1..];
      match lines[0]
      case Text(slot) =>
        var r := Preprocess(rest, build, stack);
        if r.Some? && Active(stack) then Some([slot] + r.value) else r
      case If(c) =>
        if !Active(stack) then Preprocess(rest, build, [Cond(false, false, false)] + stack)
        else if Holds(c, build).None? then None
        else
          var b := Holds(c, build).value;
          Preprocess(rest, build, [Cond(true, b, b)] + stack)
      case Elif(c) =>
        if stack == [] then None
        else if !stack[0].outer || stack[0].taken then
          Preprocess(rest, build, [stack[0].(active := false)] + stack[1..])
        else if Holds(c, build).None? then None
        else
          var b := Holds(c, build).value;
          Preprocess(rest, build, [Cond(true, b, b)] + stack[1..])
      case Else =>
        if stack == [] then None
        else Preprocess(rest, build,
                        [Cond(stack[0].outer, true, stack[0].outer && !stack[0].taken)] + stack[1..])
      case Endif =>
        if stack == [] then None else Preprocess(rest, build, stack[1..])
  }

  // ----- Emission -----

  /** A virtual method with the texts of its version attributes. */
  datatype Decl = Decl(name: string, texts: Texts)

  /** `get_version_surround` for a method: a check equal to the class's own is not repeated. */
  predicate Surrounded(cls: Texts, m: Decl)
    requires cls.Valid() && m.texts.Valid()
  {
    m.texts.HasVersion() && !(cls.HasVersion() && VersionCheck(cls) == VersionCheck(m.texts))
  }

  /** `make_capi_member_funcs` for one method: a removed method leaves a placeholder slot. */
  function MemberLines(cls: Texts, m: Decl): seq<Line>
    requires cls.Valid() && m.texts.Valid()
  {
    if !Surrounded(cls, m) then [Text(Function(m.name))]
    else
      [If(VersionCheck(m.texts)), Text(Function(m.name))]
      + (if m.texts.removed.None? then []
         else [if m.texts.added.Some? then Elif(VersionCheck(Texts(m.texts.removed, None))) else Else,
               Text(Placeholder(m.name))])
      + [Endif]
  }

  function MembersLines(cls: Texts, ms: seq<Decl>): seq<Line>
    requires cls.Valid() && forall m :: m in ms ==> m.texts.Valid()
  {
    if ms == [] then [] else MemberLines(cls, ms[0]) + MembersLines(cls, ms[1..])
  }

  /** The class in the generated C header: its own guard around the base member and the methods. */
  function ClassLines(cls: Texts, ms: seq<Decl>): seq<Line>
    requires cls.Valid() && forall m :: m in ms ==> m.texts.Valid()
  {
    var body := [Text(BaseMember)] + MembersLines(cls, ms);
    if cls.HasVersion() then [If(VersionCheck(cls))] + body + [Endif] else body
  }

  /** What a build is meant to see of a method. */
  function MethodSlots(m: Decl, build: Build): seq<Slot>
    requires m.texts.Valid()
  {
    if Present(m.texts.ToSpan(), build) then [Function(m.name)]
    else if build.Client? && m.texts.ToSpan().RemovedAt(build.version) then [Placeholder(m.name)]
    else []
  }

  function MemberSlots(ms: seq<Decl>, build: Build): seq<Slot>
    requires forall m :: m in ms ==> m.texts.Valid()
  {
    if ms == [] then [] else MethodSlots(ms[0], build) + MemberSlots(ms[1..], build)
  }

  function Prepend(kept: seq<Slot>, r: Option<seq<Slot>>): Option<seq<Slot>> {
    if r.None? then None else Some(kept + r.value)
  }

  lemma {:induction false} PrependPrepend(a: seq<Slot>, b: seq<Slot>, r: Option<seq<Slot>>)
    ensures Prepend(a, Prepend(b, r)) == Prepend(a + b, r)
    ensures Prepend([], r) == r
  {
    if r.Some? {
      assert a + (b + r.value) == a + b + r.value;
      assert [] + r.value == r.value;
    }
  }

  lemma {:induction false} PreprocessText(slot: Slot, rest: seq<Line>, build: Build, stack: seq<Cond>)
    ensures Preprocess([Text(slot)] + rest, build, stack)
            == Prepend(if Active(stack) then [slot] else [], Preprocess(rest, build, stack))
  {
    assert ([Text(slot)] + rest)[1..] == rest;
    var r := Preprocess(rest, build, stack);
    if r.Some? {
      assert [] + r.value == r.value;
    }
  }

  lemma {:induction false} PreprocessEndif(rest: seq<Line>, build: Build, top: Cond, stack: seq<Cond>)
    ensures Preprocess([Endif] + rest, build, [top] + stack) == Preprocess(rest, build, stack)
  {
    assert ([Endif] + rest)[1..] == rest && ([top] + stack)[1..] == stack;
  }

  /** The lines of one method, in text that is kept. */
  lemma {:induction false} PreprocessMember(cls: Texts, m: Decl, rest: seq<Line>, build: Build, stack: seq<Cond>)
    requires cls.Valid() && m.texts.Valid() && cls.AllFaithful() && m.texts.AllFaithful()
    requires Active(stack) && Present(cls.ToSpan(), build)
    ensures Preprocess(MemberLines(cls, m) + rest, build, stack)
            == Prepend(MethodSlots(m, build), Preprocess(rest, build, stack))
  {
    hide Holds, VersionCheck;
    var fn, ph := Function(m.name), Placeholder(m.name);
    if !Surrounded(cls, m) {
      if m.texts.HasVersion() {
        CheckMeansExists(cls, build);
        CheckMeansExists(m.texts, build);
      }
      PreprocessText(fn, rest, build, stack);
    } else {
      CheckMeansExists(m.texts, build);
      var check := VersionCheck(m.texts);
      var b := Present(m.texts.ToSpan(), build);
      var top := Cond(true, b, b);
      if m.texts.removed.None? {
        var tail := [Endif] + rest;
        assert MemberLines(cls, m) + rest == [If(check)] + ([Text(fn)] + tail);
        assert ([If(check)] + ([Text(fn)] + tail))[1..] == [Text(fn)] + tail;
        PreprocessText(fn, tail, build, [top] + stack);
        PreprocessEndif(rest, build, top, stack);
      } else {
        PreprocessRemoved(m, rest, build, stack);
        assert MemberLines(cls, m) + rest == RemovedLines(m) + rest;
      }
    }
  }

  function RemovedLines(m: Decl): seq<Line>
    requires m.texts.Valid() && m.texts.removed.Some?
  {
    [If(VersionCheck(m.texts)), Text(Function(m.name)),
     if m.texts.added.Some? then Elif(VersionCheck(Texts(m.texts.removed, None))) else Else,
     Text(Placeholder(m.name)), Endif]
  }

  lemma {:induction false} PreprocessRemoved(m: Decl, rest: seq<Line>, build: Build, stack: seq<Cond>)
    requires m.texts.Valid() && m.texts.AllFaithful() && m.texts.removed.Some? && Active(stack)
    ensures Preprocess(RemovedLines(m) + rest, build, stack)
            == Prepend(MethodSlots(m, build), Preprocess(rest, build, stack))
  {
    hide Holds, VersionCheck;
    var fn, ph := Function(m.name), Placeholder(m.name);
    CheckMeansExists(m.texts, build);
    var check := VersionCheck(m.texts);
    var b := Present(m.texts.ToSpan(), build);
    var top := Cond(true, b, b);
    var other := if m.texts.added.Some? then Elif(VersionCheck(Texts(m.texts.removed, None))) else Else;
    var l2 := [Text(ph)] + ([Endif] + rest);
    var l1 := [Text(fn)] + ([other] + l2);
    assert RemovedLines(m) + rest == [If(check)] + l1;
    assert ([If(check)] + l1)[1..] == l1;
    PreprocessText(fn, [other] + l2, build, [top] + stack);
    assert ([other] + l2)[1..] == l2 && ([top] + stack)[1..] == stack;
    CheckMeansExists(Texts(m.texts.removed, None), build);
    var removed := build.Client? && m.texts.ToSpan().RemovedAt(build.version);
    var next := if m.texts.added.Some?
                then (if b then Cond(true, true, false) else Cond(true, removed, removed))
                else Cond(true, true, !b);
    PreprocessText(ph, [Endif] + rest, build, [next] + stack);
    PreprocessEndif(rest, build, next, stack);
  }

  lemma {:induction false} PreprocessMembers(cls: Texts, ms: seq<Decl>, rest: seq<Line>, build: Build, stack: seq<Cond>)
    requires cls.Valid() && cls.AllFaithful() && Active(stack) && Present(cls.ToSpan(), build)
    requires forall m :: m in ms ==> m.texts.Valid() && m.texts.AllFaithful()
    ensures Preprocess(MembersLines(cls, ms) + rest, build, stack)
            == Prepend(MemberSlots(ms, build), Preprocess(rest, build, stack))
  {
    var r := Preprocess(rest, build, stack);
    if ms == [] {
      assert [] + rest == rest;
      PrependPrepend([], [], r);
    } else {
      var m, others := ms[0], ms[1..];
      var tail := MembersLines(cls, others) + rest;
      assert Preprocess(tail, build, stack) == Prepend(MemberSlots(others, build), r) by {
        PreprocessMembers(cls, others, rest, build, stack);
      }
      assert MembersLines(cls, ms) + rest == MemberLines(cls, m) + tail;
      assert Preprocess(MemberLines(cls, m) + tail, build, stack)
          == Prepend(MethodSlots(m, build), Preprocess(tail, build, stack)) by {
        PreprocessMember(cls, m, tail, build, stack);
      }
      PrependPrepend(MethodSlots(m, build), MemberSlots(others, build), r);
    }
  }

  /** Text that is not kept: nothing of the members survives. */
  lemma {:induction false} PreprocessSkipped(cls: Texts, ms: seq<Decl>, rest: seq<Line>, build: Build, stack: seq<Cond>)
    requires cls.Valid() && !Active(stack) && forall m :: m in ms ==> m.texts.Valid()
    ensures Preprocess(MembersLines(cls, ms) + rest, build, stack) == Preprocess(rest, build, stack)
  {
    if ms == [] {
      assert [] + rest == rest;
    } else {
      var m := ms[0];
      var tail := MembersLines(cls, ms[1..]) + rest;
      PreprocessSkipped(cls, ms[1..], rest, build, stack);
      assert MembersLines(cls, ms) + rest == MemberLines(cls, m) + tail;
      PreprocessSkippedMember(cls, m, tail, build, stack);
    }
  }

  lemma {:induction false} PreprocessSkippedMember(cls: Texts, m: Decl, rest: seq<Line>, build: Build, stack: seq<Cond>)
    requires cls.Valid() && m.texts.Valid() && !Active(stack)
    ensures Preprocess(MemberLines(cls, m) + rest, build, stack) == Preprocess(rest, build, stack)
  {
    hide Holds, VersionCheck;
    var fn, ph := Function(m.name), Placeholder(m.name);
    var r := Preprocess(rest, build, stack);
    assert r.Some? ==> [] + r.value == r.value;
    if !Surrounded(cls, m) {
      PreprocessText(fn, rest, build, stack);
    } else {
      var check := VersionCheck(m.texts);
      var off := Cond(false, false, false);
      if m.texts.removed.None? {
        var tail := [Endif] + rest;
        assert MemberLines(cls, m) + rest == [If(check)] + ([Text(fn)] + tail);
        assert ([If(check)] + ([Text(fn)] + tail))[1..] == [Text(fn)] + tail;
        PreprocessText(fn, tail, build, [off] + stack);
        PreprocessEndif(rest, build, off, stack);
      } else {
        var other := if m.texts.added.Some? then Elif(VersionCheck(Texts(m.texts.removed, None))) else Else;
        var l2 := [Text(ph)] + ([Endif] + rest);
        var l1 := [Text(fn)] + ([other] + l2);
        assert MemberLines(cls, m) + rest == [If(check)] + l1;
        assert ([If(check)] + l1)[1..] == l1;
        PreprocessText(fn, [other] + l2, build, [off] + stack);
        assert ([other] + l2)[1..] == l2 && ([off] + stack)[1..] == stack;
        var next := if m.texts.added.Some? then off else Cond(false, true, false);
        PreprocessText(ph, [Endif] + rest, build, [next] + stack);
        PreprocessEndif(rest, build, next, stack);
      }
    }
  }

  /** The generated class, preprocessed: nothing where the class is absent, else exactly the meant members. */
  lemma {:induction false} PreprocessClass(cls: Texts, ms: seq<Decl>, build: Build)
    requires cls.Valid() && cls.AllFaithful()
    requires forall m :: m in ms ==> m.texts.Valid() && m.texts.AllFaithful()
    ensures Preprocess(ClassLines(cls, ms), build, [])
            == Some(if Present(cls.ToSpan(), build) then [BaseMember] + MemberSlots(ms, build) else [])
  {
    hide Holds, VersionCheck, MemberLines, MethodSlots;
    var members := MembersLines(cls, ms);
    var kept := MemberSlots(ms, build);
    var exists_ := Present(cls.ToSpan(), build);
    if !cls.HasVersion() {
      PreprocessText(BaseMember, members, build, []);
      PreprocessMembers(cls, ms, [], build, []);
      assert members + [] == members && kept + [] == kept;
    } else {
      CheckMeansExists(cls, build);
      var check := VersionCheck(cls);
      var top := Cond(true, exists_, exists_);
      var inner := [Text(BaseMember)] + (members + [Endif]);
      assert ClassLines(cls, ms) == [If(check)] + inner;
      assert ([If(check)] + inner)[1..] == inner;
      PreprocessText(BaseMember, members + [Endif], build, [top] + []);
      if exists_ {
        PreprocessMembers(cls, ms, [Endif], build, [top] + []);
      } else {
        PreprocessSkipped(cls, ms, [Endif], build, [top] + []);
      }
      assert [Endif] + [] == [Endif];
      PreprocessEndif([], build, top, []);
      assert kept + [] == kept;
    }
  }

  lemma {:induction false} MemberSlotsName(ms: seq<Decl>, build: Build, name: string)
    requires forall m :: m in ms ==> m.texts.Valid()
    ensures Function(name) in MemberSlots(ms, build)
            <==> exists i :: 0 <= i < |ms| && ms[i].name == name && Present(ms[i].texts.ToSpan(), build)
  {
    if ms == [] {
    } else {
      MemberSlotsName(ms[1..], build, name);
      assert Function(name) in MemberSlots(ms, build)
        <==> Function(name) in MethodSlots(ms[0], build) || Function(name) in MemberSlots(ms[1..], build);
      if i :| 0 <= i < |ms| && ms[i].name == name && Present(ms[i].texts.ToSpan(), build) {
        assert i > 0 ==> ms[1..][i - 1] == ms[i];
      }
      if i :| 0 <= i < |ms[1..]| && ms[1..][i].name == name && Present(ms[1..][i].texts.ToSpan(), build) {
        assert ms[i + 1] == ms[1..][i];
      }
    }
  }

  /** A function of a name survives exactly when the class and a method of that name exist. */
  lemma {:induction false} NameSurvivesIff(cls: Texts, ms: seq<Decl>, build: Build, name: string)
    requires cls.Valid() && cls.AllFaithful()
    requires forall m :: m in ms ==> m.texts.Valid() && m.texts.AllFaithful()
    ensures Preprocess(ClassLines(cls, ms), build, []).Some?
    ensures Function(name) in Preprocess(ClassLines(cls, ms), build, []).value
            <==> Present(cls.ToSpan(), build)
                 && exists i :: 0 <= i < |ms| && ms[i].name == name && Present(ms[i].texts.ToSpan(), build)
  {
    hide *;
    PreprocessClass(cls, ms, build);
    MemberSlotsName(ms, build, name);
  }

  /** A method's own slot survives exactly when the class and the method both exist. */
  lemma {:induction false} MethodSurvivesIff(cls: Texts, ms: seq<Decl>, i: nat, build: Build)
    requires cls.Valid() && cls.AllFaithful() && i < |ms|
    requires forall m :: m in ms ==> m.texts.Valid() && m.texts.AllFaithful()
    requires forall j, k :: 0 <= j < k < |ms| ==> ms[j].name != ms[k].name
    ensures Preprocess(ClassLines(cls, ms), build, []).Some?
    ensures Function(ms[i].name) in Preprocess(ClassLines(cls, ms), build, []).value
            <==> Present(cls.ToSpan(), build) && Present(ms[i].texts.ToSpan(), build)
  {
    NameSurvivesIff(cls, ms, build, ms[i].name);
    hide *;
  }

  /** Both have bounds, and each bound of one is emitted like that of the other. */
  predicate SameBounds(t: Texts, t': Texts)
    requires t.Valid() && t'.Valid()
  {
    && (t.added.Some? <==> t'.added.Some?) && (t.removed.Some? <==> t'.removed.Some?)
    && (t.added.Some? ==> AsVariable(t.added.value) == AsVariable(t'.added.value))
    && (t.removed.Some? ==> AsVariable(t.removed.value) == AsVariable(t'.removed.value))
  }

  /** A method stands without a conditional exactly when it has no version, or its class's own. */
  lemma {:induction false} PlainMemberIff(cls: Texts, m: Decl)
    requires cls.Valid() && m.texts.Valid()
    ensures MemberLines(cls, m) == [Text(Function(m.name))]
            <==> !m.texts.HasVersion() || (cls.HasVersion() && SameBounds(cls, m.texts))
    ensures MemberLines(cls, m) != [Text(Function(m.name))] ==> MemberLines(cls, m)[0] == If(VersionCheck(m.texts))
  {
  }
}
