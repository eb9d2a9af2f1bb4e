/**
 The API signature of tools/cef_api_hash.py: declarations are gathered file by file, sorted by
 `name@filename`, filtered by platform and joined. Clang and the regular expressions are foreign
 code and enter as functions; the SHA-1 of the signature is left out.
 */
module ApiHash {
  import opened Options
  import opened PreparedText
  import opened PythonStrings
  import opened Sequences
  import opened StableSort

  const API_TOKEN: string := "#if CEF_API"
  const OS_TOKEN: string := "#if defined(OS_"
  const STRING_HEADER: string := "internal/cef_string.h"
  const EXPERIMENTAL: string := "999999"
  const UNIVERSAL: string := "universal"

  /** A declaration found in one preprocessed header, with the text that matched. */
  datatype Found = Found(name: string, text: string)

  datatype Obj = Obj(filename: string, name: string, platform: string, text: string)

  /** The foreign code: reading a file, clang with its defines, and the regular expressions. */
  datatype Tools = Tools(
    read: string -> string,
    clang: (string, string, seq<string>) -> string,
    parseObjects: string -> seq<Found>,
    parseStringTypes: string -> seq<Found>)

  /** Names match `\w+`: they contain no `@`. */
  ghost predicate WordNames(tools: Tools) {
    && (forall content, i {:trigger tools.parseObjects(content)[i]} ::
          0 <= i < |tools.parseObjects(content)| ==> '@' !in tools.parseObjects(content)[i].name)
    && (forall content, i {:trigger tools.parseStringTypes(content)[i]} ::
          0 <= i < |tools.parseStringTypes(content)| ==> '@' !in tools.parseStringTypes(content)[i].name)
  }

  function Tag(filename: string, platform: string, found: seq<Found>): seq<Obj> {
    Map((f: Found) => Obj(filename, f.name, platform, PrepareText(f.text)), found)
  }

  /** PLATFORM_DEFINES, in the dictionary's order. */
  const PLATFORMS: seq<(string, seq<string>)> := [
    ("windows", ["OS_WIN", "ARCH_CPU_X86_64"]),
    ("mac", ["OS_MAC", "OS_POSIX", "ARCH_CPU_ARM64"]),
    ("linux", ["OS_LINUX", "OS_POSIX", "CEF_X11", "ARCH_CPU_X86_64"])]

  function Defines(filename: string, added: seq<string>): seq<string> {
    ["USING_CEF_SHARED", "GENERATING_CEF_API_HASH"]
    + (if Contains(filename, "test/") then ["UNIT_TEST"] else [])
    + added
  }

  /** A version is passed to the preprocessor, except for the experimental one. */
  function VersionDefine(version: string): seq<string> {
    if version != EXPERIMENTAL then ["CEF_API_VERSION=" + version] else []
  }

  /** `parse_versioned_content` */
  function VersionedObjects(tools: Tools, filename: string, content: string, version: string,
      added: seq<string>): seq<Obj> {
    var defines := Defines(filename, added) + VersionDefine(version);
    Tag(filename, UNIVERSAL, tools.parseObjects(tools.clang(filename, content, defines)))
  }

  /** `parse_platformed_content` for the platforms from index `p` on. */
  function PlatformedFrom(tools: Tools, filename: string, content: string, defines: seq<string>, p: nat): seq<Obj>
    decreases |PLATFORMS| - p
  {
    if p >= |PLATFORMS| then [] else
      Tag(filename, PLATFORMS[p].0,
          tools.parseObjects(tools.clang(filename, content, defines + PLATFORMS[p].1)))
      + PlatformedFrom(tools, filename, content, defines, p + 1)
  }

  function PlatformedObjects(tools: Tools, filename: string, content: string, version: Option<string>,
      added: seq<string>): seq<Obj> {
    var defines := if version.Some? && version.value != "" then VersionDefine(version.value) else [];
    PlatformedFrom(tools, filename, content, Defines(filename, added) + defines, 0)
  }

  // ----- What one file contributes -----

  datatype Treatment = Cached | PerPlatform | PerVersion

  function TreatmentOf(filename: string, content: string): Treatment {
    if filename == STRING_HEADER || !Contains(content, API_TOKEN) then Cached
    else if Contains(content, OS_TOKEN) then PerPlatform
    else PerVersion
  }

  /** The objects of a file that do not depend on the API version. */
  function CachedObjects(tools: Tools, filename: string, content: string): seq<Obj> {
    if filename == STRING_HEADER then Tag(filename, UNIVERSAL, tools.parseStringTypes(content))
    else if Contains(content, OS_TOKEN) then PlatformedObjects(tools, filename, content, None, [])
    else Tag(filename, UNIVERSAL, tools.parseObjects(content))
  }

  function FileObjects(tools: Tools, filename: string, version: string, added: seq<string>): seq<Obj> {
    var content := tools.read(filename);
    match TreatmentOf(filename, content)
    case Cached => CachedObjects(tools, filename, content)
    case PerPlatform => PlatformedObjects(tools, filename, content, Some(version), added)
    case PerVersion => VersionedObjects(tools, filename, content, version, added)
  }

  function Gather(tools: Tools, filenames: seq<string>, version: string, added: seq<string>): seq<Obj> {
    if filenames == [] then []
    else FileObjects(tools, filenames[0], version, added) + Gather(tools, filenames[1..], version, added)
  }

  // ----- Sorting and signatures -----

  /** Python's order on strings: by code point. */
  predicate LexLe(a: string, b: string) {
    a == [] || (b != [] && (a[0] < b[0] || (a[0] == b[0] && LexLe(a[1..], b[1..]))))
  }

  function Key(o: Obj): string {
    o.name + "@" + o.filename
  }

  predicate KeyLe(a: Obj, b: Obj) {
    LexLe(Key(a), Key(b))
  }

  predicate OnPlatform(o: Obj, platform: string) {
    o.platform == UNIVERSAL || o.platform == platform
  }

  /** `_get_final_sig` */
  function FinalSig(objects: seq<Obj>, platform: string): string {
    Join(Map((o: Obj) => o.text, Filter((o: Obj) => OnPlatform(o, platform), objects)), "\n")
  }

  function Signature(tools: Tools, filenames: seq<string>, version: string, added: seq<string>,
      platform: string): string {
    FinalSig(Sort(KeyLe, Gather(tools, filenames, version, added)), platform)
  }

  // ----- The hasher object -----

  /** The branches of `CefApiHasher.__init__` on one file: what to store for it. */
  method Examine(tools: Tools, filename: string, content: string) returns (treatment: Treatment, objects: seq<Obj>)
    ensures treatment == TreatmentOf(filename, content)
    ensures treatment.Cached? ==> objects == CachedObjects(tools, filename, content)
  {
    var isPlatformSpecific := Contains(content, OS_TOKEN);
    var isVersionSpecific := Contains(content, API_TOKEN);
    treatment, objects := Cached, [];
    if filename == STRING_HEADER {
      objects := Tag(filename, UNIVERSAL, tools.parseStringTypes(content));
    } else if isPlatformSpecific && !isVersionSpecific {
      objects := PlatformedObjects(tools, filename, content, None, []);
    } else if isPlatformSpecific && isVersionSpecific {
      treatment := PerPlatform;
    } else if isVersionSpecific {
      treatment := PerVersion;
    } else {
      objects := Tag(filename, UNIVERSAL, tools.parseObjects(content));
    }
  }

  class CefApiHasher {
    const filenames: seq<string>
    const tools: Tools
    var versionedContents: map<string, string>
    var platformedContents: map<string, string>
    var fileContentObjs: map<string, seq<Obj>>

    /** Each file up to `n` sits in exactly the dictionary its content asks for. */
    ghost predicate Processed(n: nat)
      reads this
    {
      && n <= |filenames|
      && (forall i :: 0 <= i < n ==>
            || filenames[i] in versionedContents
            || filenames[i] in platformedContents
            || filenames[i] in fileContentObjs)
      && (forall f :: f in versionedContents ==>
            versionedContents[f] == tools.read(f) && TreatmentOf(f, tools.read(f)).PerVersion?)
      && (forall f :: f in platformedContents ==>
            platformedContents[f] == tools.read(f) && TreatmentOf(f, tools.read(f)).PerPlatform?)
      && (forall f :: f in fileContentObjs ==>
            && TreatmentOf(f, tools.read(f)).Cached?
            && fileContentObjs[f] == CachedObjects(tools, f, tools.read(f)))
    }

    ghost predicate Valid()
      reads this
    {
      Processed(|filenames|)
    }

    /** Caches what does not change between calls; a repeated file name is processed once. */
    constructor (filenames: seq<string>, tools: Tools)
      ensures Valid()
      ensures this.filenames == filenames && this.tools == tools
    {
      this.filenames := filenames;
      this.tools := tools;
      this.versionedContents := map[];
      this.platformedContents := map[];
      this.fileContentObjs := map[];
      new;
      for i := 0 to |filenames|
        invariant this.filenames == filenames && this.tools == tools
        invariant Processed(i)
      {
        Process(i);
      }
    }

    method Process(i: nat)
      requires i < |filenames| && Processed(i)
      modifies this
      ensures Processed(i + 1)
      ensures old(filenames[i] in versionedContents || filenames[i] in platformedContents
                  || filenames[i] in fileContentObjs) ==>
                unchanged(this)
    {
      var filename := filenames[i];
      if filename in versionedContents || filename in platformedContents || filename in fileContentObjs {
        return;
      }
      var content := tools.read(filename);
      var treatment, contentObjects := Examine(tools, filename, content);
      match treatment {
        case PerPlatform => platformedContents := platformedContents[filename := content];
        case PerVersion => versionedContents := versionedContents[filename := content];
        case Cached => fileContentObjs := fileContentObjs[filename := contentObjects];
      }
    }

    /** What the dictionaries hold for a file, or what clang makes of it for this version. */
    method ObjectsOf(i: nat, version: string, added: seq<string>) returns (r: seq<Obj>)
      requires Valid() && i < |filenames|
      ensures r == FileObjects(tools, filenames[i], version, added)
    {
      var filename := filenames[i];
      if filename in versionedContents {
        r := VersionedObjects(tools, filename, versionedContents[filename], version, added);
      } else if filename in platformedContents {
        r := PlatformedObjects(tools, filename, platformedContents[filename], Some(version), added);
      } else {
        r := fileContentObjs[filename];
      }
    }

    method GatherAll(version: string, added: seq<string>) returns (objects: seq<Obj>)
      requires Valid()
      ensures objects == Gather(tools, filenames, version, added)
    {
      objects := [];
      for i := 0 to |filenames|
        invariant objects == Gather(tools, filenames[..i], version, added)
      {
        var contentObjects := ObjectsOf(i, version, added);
        GatherStep(tools, filenames, i, version, added);
        objects := objects + contentObjects;
      }
      assert filenames[..|filenames|] == filenames;
    }

    /** The signature per platform, before hashing. */
    method Calculate(version: string, added: seq<string>) returns (sigs: map<string, string>)
      requires Valid()
      ensures sigs.Keys == {"windows", "mac", "linux"}
      ensures forall p :: p in sigs ==> sigs[p] == Signature(tools, filenames, version, added, p)
    {
      var objects := GatherAll(version, added);
      objects := Sort(KeyLe, objects);
      sigs := Signatures(objects);
      AllPlatformNames();
    }
  }

  function PlatformNames(n: nat): set<string>
    requires n <= |PLATFORMS|
  {
    if n == 0 then {} else PlatformNames(n - 1) + {PLATFORMS[n - 1].0}
  }

  lemma {:induction false} AllPlatformNames()
    ensures PlatformNames(|PLATFORMS|) == {"windows", "mac", "linux"}
  {
    assert PlatformNames(0) == {} && PlatformNames(1) == {"windows"} && PlatformNames(2) == {"windows", "mac"};
  }

  method Signatures(objects: seq<Obj>) returns (sigs: map<string, string>)
    ensures sigs.Keys == PlatformNames(|PLATFORMS|)
    ensures forall p :: p in sigs ==> sigs[p] == FinalSig(objects, p)
  {
    sigs := map[];
    for i := 0 to |PLATFORMS|
      invariant sigs.Keys == PlatformNames(i)
      invariant forall p :: p in sigs ==> sigs[p] == FinalSig(objects, p)
    {
      var platform := PLATFORMS[i].0;
      sigs := sigs[platform := FinalSig(objects, platform)];
    }
  }

  lemma {:induction false} GatherStep(tools: Tools, filenames: seq<string>, i: nat, version: string, added: seq<string>)
    requires i < |filenames|
    ensures Gather(tools, filenames[..i + 1], version, added)
            == Gather(tools, filenames[..i], version, added) + FileObjects(tools, filenames[i], version, added)
  {
    var one := [filenames[i]];
    assert filenames[..i + 1] == filenames[..i] + one;
    GatherAppend(tools, filenames[..i], one, version, added);
    assert one[1..] == [];
    assert Gather(tools, one, version, added) == FileObjects(tools, filenames[i], version, added) + [];
  }

  // ----- The order on keys -----

  lemma {:induction false} LexTotal(a: string, b: string)
    ensures LexLe(a, b) || LexLe(b, a)
  {
    if a != [] && b != [] {
      LexTotal(a[1..], b[1..]);
    }
  }

  lemma {:induction false} LexTransitive(a: string, b: string, c: string)
    requires LexLe(a, b) && LexLe(b, c)
    ensures LexLe(a, c)
  {
    if a != [] && a[0] == b[0] == c[0] {
      LexTransitive(a[1..], b[1..], c[1..]);
    }
  }

  lemma {:induction false} LexAntisymmetric(a: string, b: string)
    requires LexLe(a, b) && LexLe(b, a)
    ensures a == b
  {
    if a == [] {
    } else {
      LexAntisymmetric(a[1..], b[1..]);
      assert a == [a[0]] + a[1..] && b == [b[0]] + b[1..];
    }
  }

  lemma {:induction false} KeyLeIsTotal()
    ensures TotalPreorder(KeyLe)
  {
    forall x: Obj, y: Obj
      ensures KeyLe(x, y) || KeyLe(y, x)
    {
      LexTotal(Key(x), Key(y));
    }
    forall x: Obj, y: Obj, z: Obj | KeyLe(x, y) && KeyLe(y, z)
      ensures KeyLe(x, z)
    {
      LexTransitive(Key(x), Key(y), Key(z));
    }
  }

  /** Equal keys of word names come from one file. */
  lemma {:induction false} EqualKeysSameFile(x: Obj, y: Obj)
    requires '@' !in x.name && '@' !in y.name && KeyLe(x, y) && KeyLe(y, x)
    ensures x.name == y.name && x.filename == y.filename
  {
    LexAntisymmetric(Key(x), Key(y));
    SplitPiece(x.name, x.filename, '@');
    SplitPiece(y.name, y.filename, '@');
    assert Key(x)[..|x.name|] == x.name && Key(y)[..|y.name|] == y.name;
    assert Split(Key(x), '@')[0] == x.name && Split(Key(y), '@')[0] == y.name;
    assert Key(x)[|x.name| + 1..] == x.filename && Key(y)[|y.name| + 1..] == y.filename;
  }

  // ----- Independence of the order of the files -----

  lemma {:induction false} PlatformedFromFile(tools: Tools, filename: string, content: string,
      defines: seq<string>, p: nat)
    requires WordNames(tools)
    ensures forall o :: o in PlatformedFrom(tools, filename, content, defines, p) ==>
                          o.filename == filename && '@' !in o.name
    decreases |PLATFORMS| - p
  {
    if p < |PLATFORMS| {
      TagFile(tools, filename, PLATFORMS[p].0, tools.clang(filename, content, defines + PLATFORMS[p].1));
      PlatformedFromFile(tools, filename, content, defines, p + 1);
    }
  }

  lemma {:induction false} TagFile(tools: Tools, filename: string, platform: string, content: string)
    requires WordNames(tools)
    ensures forall o :: o in Tag(filename, platform, tools.parseObjects(content)) ==>
                          o.filename == filename && '@' !in o.name
    ensures forall o :: o in Tag(filename, platform, tools.parseStringTypes(content)) ==>
                          o.filename == filename && '@' !in o.name
  {
  }

  lemma {:induction false} FileObjectsOfFile(tools: Tools, filename: string, version: string, added: seq<string>)
    requires WordNames(tools)
    ensures forall o :: o in FileObjects(tools, filename, version, added) ==>
                          o.filename == filename && '@' !in o.name
  {
    hide Contains, TreatmentOf, PlatformedFrom, Tag;
    var content := tools.read(filename);
    var defines := Defines(filename, added) + VersionDefine(version);
    TagFile(tools, filename, UNIVERSAL, content);
    TagFile(tools, filename, UNIVERSAL, tools.clang(filename, content, defines));
    PlatformedFromFile(tools, filename, content, Defines(filename, []) + [], 0);
    PlatformedFromFile(tools, filename, content, Defines(filename, added) + [], 0);
    PlatformedFromFile(tools, filename, content, defines, 0);
  }

  lemma {:induction false} GatherMembers(tools: Tools, filenames: seq<string>, version: string, added: seq<string>)
    requires WordNames(tools)
    ensures forall o :: o in Gather(tools, filenames, version, added) ==> '@' !in o.name
  {
    if filenames == [] {
    } else {
      FileObjectsOfFile(tools, filenames[0], version, added);
      GatherMembers(tools, filenames[1..], version, added);
    }
  }

  function Repeat<T>(xs: seq<T>, n: nat): seq<T> {
    if n == 0 then [] else xs + Repeat(xs, n - 1)
  }

  lemma {:induction false} EmptyClass(x: Obj, xs: seq<Obj>)
    requires forall y :: y in xs ==> !(KeyLe(x, y) && KeyLe(y, x))
    ensures EqualKeys(KeyLe, x, xs) == []
  {
    if xs == [] {
    } else {
      assert xs[0] in xs;
      EmptyClass(x, xs[1..]);
    }
  }

  /** Objects of another file have other keys. */
  lemma {:induction false} ClassInOtherFile(tools: Tools, f: string, version: string, added: seq<string>, x: Obj)
    requires WordNames(tools) && '@' !in x.name && f != x.filename
    ensures EqualKeys(KeyLe, x, FileObjects(tools, f, version, added)) == []
  {
    var own := FileObjects(tools, f, version, added);
    FileObjectsOfFile(tools, f, version, added);
    forall y | y in own
      ensures !(KeyLe(x, y) && KeyLe(y, x))
    {
      if KeyLe(x, y) && KeyLe(y, x) {
        EqualKeysSameFile(x, y);
      }
    }
    EmptyClass(x, own);
  }

  function Times(filenames: seq<string>, f: string): nat {
    if filenames == [] then 0 else (if filenames[0] == f then 1 else 0) + Times(filenames[1..], f)
  }

  lemma {:induction false} TimesIsMultiplicity(filenames: seq<string>, f: string)
    ensures Times(filenames, f) == multiset(filenames)[f]
  {
    if filenames == [] {
    } else {
      TimesIsMultiplicity(filenames[1..], f);
      assert filenames == [filenames[0]] + filenames[1..];
    }
  }

  function ClassInFile(tools: Tools, version: string, added: seq<string>, x: Obj, f: string): seq<Obj> {
    EqualKeys(KeyLe, x, FileObjects(tools, f, version, added))
  }

  lemma {:induction false} ClassOfGatherStep(tools: Tools, filenames: seq<string>, version: string,
      added: seq<string>, x: Obj)
    requires filenames != []
    ensures EqualKeys(KeyLe, x, Gather(tools, filenames, version, added))
            == ClassInFile(tools, version, added, x, filenames[0])
               + EqualKeys(KeyLe, x, Gather(tools, filenames[1..], version, added))
  {
    ClassAppend(KeyLe, x, FileObjects(tools, filenames[0], version, added), Gather(tools,
        filenames[1..], version, added));
  }

  /** Lists that come from one name only, gathered over a list of names. */
  lemma {:induction false} GatherOneName(filenames: seq<string>, f: string, parts: string -> seq<Obj>)
    requires forall g :: g != f ==> parts(g) == []
    ensures Flatten(Map(parts, filenames)) == Repeat(parts(f), Times(filenames, f))
  {
    if filenames == [] {
    } else {
      GatherOneName(filenames[1..], f, parts);
      assert Map(parts, filenames)[1..] == Map(parts, filenames[1..]);
      assert filenames[0] != f ==> parts(filenames[0]) == [];
    }
  }

  lemma {:induction false} ClassOfGatherParts(tools: Tools, filenames: seq<string>, version: string, added: seq<string>,
                                              x: Obj, parts: string -> seq<Obj>)
    requires forall g :: parts(g) == ClassInFile(tools, version, added, x, g)
    ensures EqualKeys(KeyLe, x, Gather(tools, filenames, version, added)) == Flatten(Map(parts, filenames))
  {
    if filenames == [] {
    } else {
      ClassOfGatherStep(tools, filenames, version, added, x);
      ClassOfGatherParts(tools, filenames[1..], version, added, x, parts);
      assert Map(parts, filenames)[1..] == Map(parts, filenames[1..]);
      assert parts(filenames[0]) == ClassInFile(tools, version, added, x, filenames[0]);
    }
  }

  /** The objects with one key: those of its file, once for every time the file is listed. */
  lemma {:induction false} ClassOfGather(tools: Tools, filenames: seq<string>, version: string,
      added: seq<string>, x: Obj)
    requires WordNames(tools) && '@' !in x.name
    ensures EqualKeys(KeyLe, x, Gather(tools, filenames, version, added))
            == Repeat(ClassInFile(tools, version, added, x, x.filename), Times(filenames, x.filename))
  {
    var parts := (g: string) => ClassInFile(tools, version, added, x, g);
    forall g | g != x.filename
      ensures parts(g) == []
    {
      ClassInOtherFile(tools, g, version, added, x);
    }
    ClassOfGatherParts(tools, filenames, version, added, x, parts);
    GatherOneName(filenames, x.filename, parts);
  }

  /** The sorted objects do not depend on the order in which the files are listed. */
  lemma {:induction false} SortedObjectsStable(tools: Tools, files: seq<string>, files': seq<string>,
                                               version: string, added: seq<string>)
    requires WordNames(tools) && multiset(files) == multiset(files')
    ensures Sort(KeyLe, Gather(tools, files, version, added)) == Sort(KeyLe, Gather(tools, files', version, added))
  {
    var a, b := Gather(tools, files, version, added), Gather(tools, files', version, added);
    KeyLeIsTotal();
    GatherMembers(tools, files, version, added);
    GatherMembers(tools, files', version, added);
    forall x | x in a || x in b
      ensures EqualKeys(KeyLe, x, a) == EqualKeys(KeyLe, x, b)
    {
      ClassOfGather(tools, files, version, added, x);
      ClassOfGather(tools, files', version, added, x);
      TimesIsMultiplicity(files, x.filename);
      TimesIsMultiplicity(files', x.filename);
    }
    SortFromClasses(KeyLe, a, b);
  }

  /** The signature of a platform is stable under any reordering of the file list. */
  lemma {:induction false} SignatureStable(tools: Tools, files: seq<string>, files': seq<string>,
                                           version: string, added: seq<string>, platform: string)
    requires WordNames(tools) && multiset(files) == multiset(files')
    ensures Signature(tools, files, version, added, platform) == Signature(tools, files', version, added, platform)
  {
    SortedObjectsStable(tools, files, files', version, added);
  }

  function Texts(objects: seq<Obj>): string {
    Join(Map((o: Obj) => o.text, objects), "\n")
  }

  /** It is the sorted text of that platform's and the universal objects alone. */
  lemma {:induction false} SignatureOfPlatform(tools: Tools, files: seq<string>, version: string,
      added: seq<string>, platform: string)
    ensures Signature(tools, files, version, added, platform)
            == Texts(Sort(KeyLe, Filter((o: Obj) => OnPlatform(o, platform), Gather(tools, files, version, added))))
  {
    KeyLeIsTotal();
    var p := (o: Obj) => OnPlatform(o, platform);
    var objects := Gather(tools, files, version, added);
    SortFilter(KeyLe, p, objects);
    FilterAgree((o: Obj) => OnPlatform(o, platform), p, Sort(KeyLe, objects));
  }

  /** Files whose objects all belong to other platforms do not matter. */
  lemma {:induction false} OtherPlatformsDoNotMatter(tools: Tools, files: seq<string>, extra: seq<string>,
                                                     version: string, added: seq<string>, platform: string)
    requires forall o :: o in Gather(tools, extra, version, added) ==> !OnPlatform(o, platform)
    ensures Signature(tools, files + extra, version, added, platform)
            == Signature(tools, files, version, added, platform)
  {
    var p := (o: Obj) => OnPlatform(o, platform);
    GatherAppend(tools, files, extra, version, added);
    var a, b := Gather(tools, files, version, added), Gather(tools, extra, version, added);
    FilterAppend(p, a, b);
    FilterNone(p, b);
    assert Filter(p, a) + [] == Filter(p, a);
    SignatureOfPlatform(tools, files + extra, version, added, platform);
    SignatureOfPlatform(tools, files, version, added, platform);
    FilterAgree((o: Obj) => OnPlatform(o, platform), p, a + b);
    FilterAgree((o: Obj) => OnPlatform(o, platform), p, a);
  }

  lemma {:induction false} GatherAppend(tools: Tools, a: seq<string>, b: seq<string>, version: string,
      added: seq<string>)
    ensures Gather(tools, a + b, version, added) == Gather(tools, a, version, added) + Gather(tools, b, version, added)
  {
    if a == [] {
      assert a + b == b;
    } else {
      assert (a + b)[1..] == a[1..] + b;
      GatherAppend(tools, a[1..], b, version, added);
    }
  }

  // ----- Independence of the layout of the headers -----

  /** The same declarations, apart from white space that preparing drops. */
  ghost predicate SameWords(a: seq<Found>, b: seq<Found>) {
    && |a| == |b|
    && forall i :: 0 <= i < |a| ==> a[i].name == b[i].name && Fuse(Words(a[i].text)) == Fuse(Words(b[i].text))
  }

  /** One file in two layouts: the same tokens select its treatment, and the same declarations are found in it. */
  ghost predicate SameFile(tools: Tools, filename: string, content: string, content': string) {
    && (Contains(content, API_TOKEN) <==> Contains(content', API_TOKEN))
    && (Contains(content, OS_TOKEN) <==> Contains(content', OS_TOKEN))
    && SameWords(tools.parseStringTypes(content), tools.parseStringTypes(content'))
    && SameWords(tools.parseObjects(content), tools.parseObjects(content'))
    && forall defines :: SameWords(tools.parseObjects(tools.clang(filename, content, defines)),
                                   tools.parseObjects(tools.clang(filename, content', defines)))
  }

  lemma {:induction false} TagSameWords(filename: string, platform: string, a: seq<Found>, b: seq<Found>)
    requires SameWords(a, b)
    ensures Tag(filename, platform, a) == Tag(filename, platform, b)
  {
    forall i | 0 <= i < |a|
      ensures PrepareText(a[i].text) == PrepareText(b[i].text)
    {
      PreparedAlikeIff(a[i].text, b[i].text);
    }
  }

  lemma {:induction false} ClangSame(tools: Tools, filename: string, content: string, content': string,
                                     platform: string, defines: seq<string>)
    requires SameFile(tools, filename, content, content')
    ensures Tag(filename, platform, tools.parseObjects(tools.clang(filename, content, defines)))
            == Tag(filename, platform, tools.parseObjects(tools.clang(filename, content', defines)))
  {
    TagSameWords(filename, platform, tools.parseObjects(tools.clang(filename, content, defines)),
                 tools.parseObjects(tools.clang(filename, content', defines)));
  }

  lemma {:induction false} UnprocessedSame(tools: Tools, filename: string, content: string, content': string)
    requires SameFile(tools, filename, content, content')
    ensures TreatmentOf(filename, content) == TreatmentOf(filename, content')
    ensures Contains(content, OS_TOKEN) <==> Contains(content', OS_TOKEN)
    ensures Tag(filename, UNIVERSAL, tools.parseStringTypes(content))
            == Tag(filename, UNIVERSAL, tools.parseStringTypes(content'))
    ensures Tag(filename, UNIVERSAL, tools.parseObjects(content))
            == Tag(filename, UNIVERSAL, tools.parseObjects(content'))
  {
    TagSameWords(filename, UNIVERSAL, tools.parseStringTypes(content), tools.parseStringTypes(content'));
    TagSameWords(filename, UNIVERSAL, tools.parseObjects(content), tools.parseObjects(content'));
  }

  lemma {:induction false} PlatformedSame(tools: Tools, filename: string, content: string, content': string,
                                          defines: seq<string>, p: nat)
    requires SameFile(tools, filename, content, content')
    ensures PlatformedFrom(tools, filename, content, defines, p)
            == PlatformedFrom(tools, filename, content', defines, p)
    decreases |PLATFORMS| - p
  {
    if p < |PLATFORMS| {
      ClangSame(tools, filename, content, content', PLATFORMS[p].0, defines + PLATFORMS[p].1);
      PlatformedSame(tools, filename, content, content', defines, p + 1);
    }
  }

  lemma {:induction false} FileObjectsSame(tools: Tools, tools': Tools, filename: string, version: string,
                                           added: seq<string>)
    requires tools' == tools.(read := tools'.read)
    requires SameFile(tools, filename, tools.read(filename), tools'.read(filename))
    ensures FileObjects(tools, filename, version, added) == FileObjects(tools', filename, version, added)
  {
    hide Contains, PlatformedFrom, Tag, SameFile, TreatmentOf, SameWords, Defines;
    var content, content' := tools.read(filename), tools'.read(filename);
    var defines := Defines(filename, added) + VersionDefine(version);
    UnprocessedSame(tools, filename, content, content');
    ClangSame(tools, filename, content, content', UNIVERSAL, defines);
    PlatformedSame(tools, filename, content, content', Defines(filename, []) + [], 0);
    PlatformedSame(tools, filename, content, content', Defines(filename, added) + [], 0);
    PlatformedSame(tools, filename, content, content', defines, 0);
    PlatformedOtherReader(tools, tools', filename, content', Defines(filename, []) + [], 0);
    PlatformedOtherReader(tools, tools', filename, content', Defines(filename, added) + [], 0);
    PlatformedOtherReader(tools, tools', filename, content', defines, 0);
  }

  /** Once the content is read, how it was read does not matter. */
  lemma {:induction false} PlatformedOtherReader(tools: Tools, tools': Tools, filename: string, content: string,
                                                 defines: seq<string>, p: nat)
    requires tools' == tools.(read := tools'.read)
    ensures PlatformedFrom(tools, filename, content, defines, p)
            == PlatformedFrom(tools', filename, content, defines, p)
    decreases |PLATFORMS| - p
  {
    if p < |PLATFORMS| {
      PlatformedOtherReader(tools, tools', filename, content, defines, p + 1);
    }
  }

  /** Headers that differ only in white space between words or after parentheses have the same signature. */
  lemma {:induction false} SpacingDoesNotMatter(tools: Tools, tools': Tools, filenames: seq<string>,
                                                version: string, added: seq<string>, platform: string)
    requires tools' == tools.(read := tools'.read)
    requires forall f :: f in filenames ==> SameFile(tools, f, tools.read(f), tools'.read(f))
    ensures Signature(tools, filenames, version, added, platform)
            == Signature(tools', filenames, version, added, platform)
  {
    GatherSame(tools, tools', filenames, version, added);
  }

  lemma {:induction false} GatherSame(tools: Tools, tools': Tools, filenames: seq<string>, version: string,
                                      added: seq<string>)
    requires tools' == tools.(read := tools'.read)
    requires forall f :: f in filenames ==> SameFile(tools, f, tools.read(f), tools'.read(f))
    ensures Gather(tools, filenames, version, added) == Gather(tools', filenames, version, added)
  {
    hide SameFile, FileObjects;
    if filenames == [] {
    } else {
      assert filenames[0] in filenames && forall f :: f in filenames[1..] ==> f in filenames;
      FileObjectsSame(tools, tools', filenames[0], version, added);
      GatherSame(tools, tools', filenames[1..], version, added);
    }
  }
}
