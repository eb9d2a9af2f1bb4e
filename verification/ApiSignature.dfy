/**
 What the API signature of tools/cef_api_hash.py is made from, spelled out on its own: which
 declarations enter it, in which order, and with which defines clang is asked for them.
 */
module ApiSignature {
  import opened ApiHash
  import opened Options
  import opened PreparedText
  import opened PythonStrings
  import opened Sequences
  import opened StableSort

  // ----- What a signature consists of, declaration by declaration -----

  predicate IsFound(o: Obj, found: seq<Found>) {
    exists i :: 0 <= i < |found| && found[i].name == o.name && PrepareText(found[i].text) == o.text
  }

  /** The defines of a run of clang on a file, without those of a platform. */
  function FileDefines(filename: string, content: string, version: string, added: seq<string>): seq<string> {
    ["USING_CEF_SHARED", "GENERATING_CEF_API_HASH"]
    + (if Contains(filename, "test/") then ["UNIT_TEST"] else [])
    + (if !Contains(content, "#if CEF_API") then []
       else if version == "999999" || (version == "" && Contains(content, "#if defined(OS_")) then added
       else added + ["CEF_API_VERSION=" + version])
  }

  /** Clang, given these defines, leaves a declaration of this name and text in the file. */
  predicate ClangFinds(tools: Tools, o: Obj, content: string, defines: seq<string>) {
    IsFound(o, tools.parseObjects(tools.clang(o.filename, content, defines)))
  }

  /** Found for the platform it is labelled with. */
  predicate FoundOnPlatform(tools: Tools, o: Obj, content: string, defines: seq<string>) {
    || (o.platform == "windows" && ClangFinds(tools, o, content, defines + ["OS_WIN", "ARCH_CPU_X86_64"]))
    || (o.platform == "mac" && ClangFinds(tools, o, content, defines + ["OS_MAC", "OS_POSIX", "ARCH_CPU_ARM64"]))
    || (&& o.platform == "linux"
        && ClangFinds(tools, o, content, defines + ["OS_LINUX", "OS_POSIX", "CEF_X11", "ARCH_CPU_X86_64"]))
  }

  /** A declaration that some platform's signature is made from, by the tokens in its file. */
  predicate Declares(tools: Tools, version: string, added: seq<string>, o: Obj) {
    var f, content := o.filename, tools.read(o.filename);
    var defines := FileDefines(f, content, version, added);
    if f == "internal/cef_string.h" then
      o.platform == "universal" && IsFound(o, tools.parseStringTypes(content))
    else if Contains(content, "#if defined(OS_") then
      FoundOnPlatform(tools, o, content, defines)
    else if Contains(content, "#if CEF_API") then
      o.platform == "universal" && ClangFinds(tools, o, content, defines)
    else
      o.platform == "universal" && IsFound(o, tools.parseObjects(content))
  }

  lemma {:induction false} InTag(filename: string, platform: string, found: seq<Found>, o: Obj)
    ensures o in Tag(filename, platform, found)
            <==> o.filename == filename && o.platform == platform && IsFound(o, found)
  {
    var tagged := Tag(filename, platform, found);
    if o in tagged {
      var i :| 0 <= i < |tagged| && tagged[i] == o;
      assert found[i].name == o.name;
    }
    if o.filename == filename && o.platform == platform && IsFound(o, found) {
      var i :| 0 <= i < |found| && found[i].name == o.name && PrepareText(found[i].text) == o.text;
      assert tagged[i] == o;
    }
  }

  lemma {:induction false} InPlatformed(tools: Tools, filename: string, content: string, defines: seq<string>,
                                        p: nat, o: Obj)
    ensures o in PlatformedFrom(tools, filename, content, defines, p)
            <==> && o.filename == filename
                 && exists q :: p <= q < |PLATFORMS| && o.platform == PLATFORMS[q].0
                                && ClangFinds(tools, o, content, defines + PLATFORMS[q].1)
    decreases |PLATFORMS| - p
  {
    if p < |PLATFORMS| {
      var found := tools.parseObjects(tools.clang(filename, content, defines + PLATFORMS[p].1));
      InTag(filename, PLATFORMS[p].0, found, o);
      InPlatformed(tools, filename, content, defines, p + 1, o);
      hide Tag, IsFound;
      assert o in PlatformedFrom(tools, filename, content, defines, p)
        <==> o in Tag(filename, PLATFORMS[p].0, found) || o in PlatformedFrom(tools, filename, content, defines, p + 1);
    }
  }

  lemma {:induction false} InAllPlatforms(tools: Tools, filename: string, content: string, defines: seq<string>, o: Obj)
    ensures o in PlatformedFrom(tools, filename, content, defines, 0)
            <==> o.filename == filename && FoundOnPlatform(tools, o, content, defines)
  {
    InPlatformed(tools, filename, content, defines, 0, o);
    hide PlatformedFrom, IsFound, ClangFinds;
    assert PLATFORMS[0] == ("windows", ["OS_WIN", "ARCH_CPU_X86_64"]);
    assert PLATFORMS[1] == ("mac", ["OS_MAC", "OS_POSIX", "ARCH_CPU_ARM64"]);
    assert PLATFORMS[2] == ("linux", ["OS_LINUX", "OS_POSIX", "CEF_X11", "ARCH_CPU_X86_64"]);
  }

  lemma {:induction false} SameDefines(filename: string, content: string, version: string, added: seq<string>)
    ensures !Contains(content, "#if CEF_API") ==>
              Defines(filename, []) + [] == FileDefines(filename, content, version, added)
    ensures Contains(content, "#if CEF_API") && !Contains(content, "#if defined(OS_") ==>
              Defines(filename, added) + VersionDefine(version) == FileDefines(filename, content, version, added)
    ensures Contains(content, "#if CEF_API") && Contains(content, "#if defined(OS_") ==>
              Defines(filename, added) + (if version != "" then VersionDefine(version) else [])
              == FileDefines(filename, content, version, added)
  {
    hide Contains;
  }

  lemma {:induction false} InFileIff(tools: Tools, f: string, version: string, added: seq<string>, o: Obj)
    ensures o in FileObjects(tools, f, version, added) <==> o.filename == f && Declares(tools, version, added, o)
  {
    var content := tools.read(f);
    var defines := FileDefines(f, content, version, added);
    SameDefines(f, content, version, added);
    InTag(f, "universal", tools.parseStringTypes(content), o);
    InTag(f, "universal", tools.parseObjects(content), o);
    InTag(f, "universal", tools.parseObjects(tools.clang(f, content, defines)), o);
    InAllPlatforms(tools, f, content, defines, o);
    hide Contains, Tag, IsFound, FoundOnPlatform, Defines, FileDefines, VersionDefine, PlatformedFrom;
  }

  lemma {:induction false} InGatherIff(tools: Tools, filenames: seq<string>, version: string,
      added: seq<string>, o: Obj)
    ensures o in Gather(tools, filenames, version, added)
            <==> o.filename in filenames && Declares(tools, version, added, o)
  {
    hide Declares, FileObjects;
    if filenames == [] {
    } else {
      InFileIff(tools, filenames[0], version, added, o);
      InGatherIff(tools, filenames[1..], version, added, o);
      assert o in Gather(tools, filenames, version, added)
        <==> o in FileObjects(tools, filenames[0], version, added)
             || o in Gather(tools, filenames[1..], version, added);
      assert o.filename in filenames <==> o.filename == filenames[0] || o.filename in filenames[1..];
    }
  }

  /** The objects a platform's signature is joined from. */
  function SignatureObjects(tools: Tools, filenames: seq<string>, version: string, added: seq<string>,
      platform: string): seq<Obj> {
    Filter((o: Obj) => OnPlatform(o, platform), Sort(KeyLe, Gather(tools, filenames, version, added)))
  }

  /** By code point: a prefix comes first, otherwise the first difference decides. */
  ghost predicate CodePointLe(a: string, b: string) {
    a <= b || exists k :: 0 <= k < |a| && k < |b| && a[..k] == b[..k] && a[k] < b[k]
  }

  lemma {:induction false} LexIsCodePoint(a: string, b: string)
    ensures LexLe(a, b) <==> CodePointLe(a, b)
  {
    if a == [] || b == [] {
    } else {
      LexIsCodePoint(a[1..], b[1..]);
      if a[0] == b[0] {
        assert a <= b <==> a[1..] <= b[1..];
        if k :| 0 <= k < |a[1..]| && k < |b[1..]| && a[1..][..k] == b[1..][..k] && a[1..][k] < b[1..][k] {
          assert a[..k + 1] == [a[0]] + a[1..][..k] && b[..k + 1] == [b[0]] + b[1..][..k];
        }
        if k :| 0 <= k < |a| && k < |b| && a[..k] == b[..k] && a[k] < b[k] {
          assert k > 0 && a[1..][..k - 1] == a[..k][1..] && b[1..][..k - 1] == b[..k][1..];
        }
      } else {
        assert a[0] < b[0] ==> a[..0] == b[..0];
        if k :| 0 <= k < |a| && k < |b| && a[..k] == b[..k] && a[k] < b[k] {
          assert k > 0 ==> a[..k][0] == b[..k][0];
        }
      }
    }
  }

  /** Exactly which declarations enter a signature, whose order it has, and how their texts are joined. */
  lemma {:induction false} SignatureMeaning(tools: Tools, filenames: seq<string>, version: string, added: seq<string>,
                                            platform: string, o: Obj)
    ensures var objects := SignatureObjects(tools, filenames, version, added, platform);
            && Signature(tools, filenames, version, added, platform) == Join(Map((x: Obj) => x.text, objects), "\n")
            && (o in objects <==> && o.filename in filenames && Declares(tools, version, added, o)
                                  && (o.platform == "universal" || o.platform == platform))
            && (forall i, j :: 0 <= i < j < |objects| ==>
                  CodePointLe(objects[i].name + "@" + objects[i].filename, objects[j].name + "@" + objects[j].filename))
  {
    var p := (x: Obj) => OnPlatform(x, platform);
    var all := Gather(tools, filenames, version, added);
    var objects := SignatureObjects(tools, filenames, version, added, platform);
    FilterMember(p, Sort(KeyLe, all), o);
    SortMember(KeyLe, all, o);
    InGatherIff(tools, filenames, version, added, o);
    KeyLeIsTotal();
    SortSorted(KeyLe, all);
    FilterSorted(KeyLe, p, Sort(KeyLe, all));
    forall i, j | 0 <= i < j < |objects|
      ensures CodePointLe(objects[i].name + "@" + objects[i].filename, objects[j].name + "@" + objects[j].filename)
    {
      assert KeyLe(objects[i], objects[j]);
      LexIsCodePoint(Key(objects[i]), Key(objects[j]));
    }
    hide Gather, Declares, CodePointLe, LexLe;
  }

  // ----- What reaches clang -----

  /** The lists of defines that clang is given for a file. */
  function ClangCalls(filename: string, content: string, version: string, added: seq<string>): seq<seq<string>> {
    var defines := FileDefines(filename, content, version, added);
    if filename == "internal/cef_string.h" then []
    else if Contains(content, "#if defined(OS_") then
      [defines + ["OS_WIN", "ARCH_CPU_X86_64"], defines + ["OS_MAC", "OS_POSIX", "ARCH_CPU_ARM64"],
       defines + ["OS_LINUX", "OS_POSIX", "CEF_X11", "ARCH_CPU_X86_64"]]
    else if Contains(content, "#if CEF_API") then [defines]
    else []
  }

  /** Two versions of clang that answer alike where they are asked. */
  ghost predicate AgreeOn(tools: Tools, tools': Tools, filename: string, calls: seq<seq<string>>) {
    && tools' == tools.(clang := tools'.clang)
    && forall d :: d in calls ==>
                     tools.clang(filename, tools.read(filename), d) == tools'.clang(filename, tools.read(filename), d)
  }

  lemma {:induction false} PlatformedAgree(tools: Tools, tools': Tools, filename: string, defines: seq<string>, p: nat)
    requires tools' == tools.(clang := tools'.clang)
    requires forall q :: p <= q < |PLATFORMS| ==>
                           tools.clang(filename, tools.read(filename), defines + PLATFORMS[q].1)
                           == tools'.clang(filename, tools.read(filename), defines + PLATFORMS[q].1)
    ensures PlatformedFrom(tools, filename, tools.read(filename), defines, p)
            == PlatformedFrom(tools', filename, tools.read(filename), defines, p)
    decreases |PLATFORMS| - p
  {
    if p < |PLATFORMS| {
      PlatformedAgree(tools, tools', filename, defines, p + 1);
    }
  }

  lemma {:induction false} ThreeAgree(tools: Tools, tools': Tools, filename: string, version: string,
      added: seq<string>)
    requires AgreeOn(tools, tools', filename, ClangCalls(filename, tools.read(filename), version, added))
    requires filename != "internal/cef_string.h" && Contains(tools.read(filename), "#if defined(OS_")
    ensures var content := tools.read(filename);
            var defines := FileDefines(filename, content, version, added);
            PlatformedFrom(tools, filename, content, defines, 0)
            == PlatformedFrom(tools', filename, content, defines, 0)
  {
    var defines := FileDefines(filename, tools.read(filename), version, added);
    var calls := ClangCalls(filename, tools.read(filename), version, added);
    hide Contains, FileDefines;
    forall q | 0 <= q < |PLATFORMS|
      ensures tools.clang(filename, tools.read(filename), defines + PLATFORMS[q].1)
           == tools'.clang(filename, tools.read(filename), defines + PLATFORMS[q].1)
    {
      assert defines + PLATFORMS[q].1 == calls[q];
    }
    PlatformedAgree(tools, tools', filename, defines, 0);
  }

  /** A file's objects depend on clang only through its calls. */
  lemma {:induction false} FileObjectsAgree(tools: Tools, tools': Tools, filename: string, version: string,
      added: seq<string>)
    requires AgreeOn(tools, tools', filename, ClangCalls(filename, tools.read(filename), version, added))
    ensures FileObjects(tools, filename, version, added) == FileObjects(tools', filename, version, added)
  {
    var content := tools.read(filename);
    SameDefines(filename, content, version, added);
    if filename != "internal/cef_string.h" && Contains(content, "#if defined(OS_") {
      ThreeAgree(tools, tools', filename, version, added);
    }
    assert filename != "internal/cef_string.h" && !Contains(content, "#if defined(OS_")
           && Contains(content, "#if CEF_API") ==>
        FileDefines(filename, content, version, added) in ClangCalls(filename, content, version, added);
    hide Contains, FileDefines, Defines, VersionDefine, PlatformedFrom, Tag;
  }

  lemma {:induction false} SignatureAgrees(tools: Tools, tools': Tools, filenames: seq<string>, version: string,
                                           added: seq<string>, platform: string)
    requires forall f :: f in filenames ==>
                           AgreeOn(tools, tools', f, ClangCalls(f, tools.read(f), version, added))
    ensures Signature(tools, filenames, version, added, platform)
            == Signature(tools', filenames, version, added, platform)
  {
    GatherAgrees(tools, tools', filenames, version, added);
  }

  lemma {:induction false} GatherAgrees(tools: Tools, tools': Tools, filenames: seq<string>, version: string,
                                        added: seq<string>)
    requires forall f :: f in filenames ==>
                           AgreeOn(tools, tools', f, ClangCalls(f, tools.read(f), version, added))
    ensures Gather(tools, filenames, version, added) == Gather(tools', filenames, version, added)
  {
    hide FileObjects, ClangCalls, AgreeOn;
    if filenames == [] {
    } else {
      assert filenames[0] in filenames && forall f :: f in filenames[1..] ==> f in filenames;
      FileObjectsAgree(tools, tools', filenames[0], version, added);
      GatherAgrees(tools, tools', filenames[1..], version, added);
    }
  }

  lemma {:induction false} CallsCarryVersion(filename: string, content: string, version: string,
      added: seq<string>, d: seq<string>)
    requires Contains(content, "#if CEF_API") && version != "999999" && version != ""
    requires d in ClangCalls(filename, content, version, added)
    ensures "CEF_API_VERSION=" + version in d
  {
    var entry := "CEF_API_VERSION=" + version;
    var defines := FileDefines(filename, content, version, added);
    assert defines[|defines| - 1] == entry;
    hide Contains, FileDefines;
    assert entry in defines;
  }

  /** The version reaches clang: for files that mention the API, runs without it do not matter. */
  lemma {:induction false} VersionReachesClang(tools: Tools, tools': Tools, filenames: seq<string>, version: string,
                                               added: seq<string>, platform: string)
    requires tools' == tools.(clang := tools'.clang)
    requires version != "999999" && version != ""
    requires forall f :: f in filenames ==> Contains(tools.read(f), "#if CEF_API")
    requires forall f, content, d :: "CEF_API_VERSION=" + version in d ==>
                                       tools.clang(f, content, d) == tools'.clang(f, content, d)
    ensures Signature(tools, filenames, version, added, platform)
            == Signature(tools', filenames, version, added, platform)
  {
    forall f | f in filenames
      ensures AgreeOn(tools, tools', f, ClangCalls(f, tools.read(f), version, added))
    {
      forall d | d in ClangCalls(f, tools.read(f), version, added)
        ensures tools.clang(f, tools.read(f), d) == tools'.clang(f, tools.read(f), d)
      {
        CallsCarryVersion(f, tools.read(f), version, added, d);
      }
    }
    SignatureAgrees(tools, tools', filenames, version, added, platform);
  }

  predicate NoVersionIn(d: seq<string>) {
    forall i :: 0 <= i < |d| ==> !("CEF_API_VERSION=" <= d[i])
  }

  lemma {:induction false} NotVersion(entry: string, k: nat)
    requires k < |entry| && k < 16 && entry[k] != "CEF_API_VERSION="[k]
    ensures !("CEF_API_VERSION=" <= entry)
  {
  }

  lemma {:induction false} NoVersionInOwn()
    ensures NoVersionIn(["USING_CEF_SHARED", "GENERATING_CEF_API_HASH"]) && NoVersionIn(["UNIT_TEST"])
    ensures NoVersionIn(["OS_WIN", "ARCH_CPU_X86_64"]) && NoVersionIn(["OS_MAC", "OS_POSIX", "ARCH_CPU_ARM64"])
    ensures NoVersionIn(["OS_LINUX", "OS_POSIX", "CEF_X11", "ARCH_CPU_X86_64"])
  {
    NotVersion("USING_CEF_SHARED", 0);
    NotVersion("GENERATING_CEF_API_HASH", 0);
    NotVersion("UNIT_TEST", 0);
    NotVersion("OS_WIN", 0);
    NotVersion("ARCH_CPU_X86_64", 0);
    NotVersion("OS_MAC", 0);
    NotVersion("OS_POSIX", 0);
    NotVersion("ARCH_CPU_ARM64", 0);
    NotVersion("OS_LINUX", 0);
    NotVersion("CEF_X11", 4);
  }

  lemma {:induction false} NoVersionAppend(a: seq<string>, b: seq<string>)
    requires NoVersionIn(a) && NoVersionIn(b)
    ensures NoVersionIn(a + b)
  {
  }

  lemma {:induction false} ExperimentalDefines(filename: string, content: string, added: seq<string>)
    requires NoVersionIn(added)
    ensures NoVersionIn(FileDefines(filename, content, "999999", added))
  {
    var own := ["USING_CEF_SHARED", "GENERATING_CEF_API_HASH"];
    var forTests := if Contains(filename, "test/") then ["UNIT_TEST"] else [];
    NoVersionInOwn();
    NoVersionAppend(own, forTests);
    NoVersionAppend(own + forTests, []);
    NoVersionAppend(own + forTests, added);
    hide Contains, NoVersionIn;
  }

  lemma {:induction false} ExperimentalCalls(filename: string, content: string, added: seq<string>, d: seq<string>)
    requires NoVersionIn(added) && d in ClangCalls(filename, content, "999999", added)
    ensures NoVersionIn(d)
  {
    var defines := FileDefines(filename, content, "999999", added);
    ExperimentalDefines(filename, content, added);
    NoVersionInOwn();
    NoVersionAppend(defines, ["OS_WIN", "ARCH_CPU_X86_64"]);
    NoVersionAppend(defines, ["OS_MAC", "OS_POSIX", "ARCH_CPU_ARM64"]);
    NoVersionAppend(defines, ["OS_LINUX", "OS_POSIX", "CEF_X11", "ARCH_CPU_X86_64"]);
    hide Contains, NoVersionIn, FileDefines;
  }

  /** For the experimental version clang is told none: runs with a version do not matter. */
  lemma {:induction false} ExperimentalHasNoVersion(tools: Tools, tools': Tools, filenames: seq<string>,
                                                    added: seq<string>, platform: string)
    requires tools' == tools.(clang := tools'.clang) && NoVersionIn(added)
    requires forall f, content, d :: NoVersionIn(d) ==> tools.clang(f, content, d) == tools'.clang(f, content, d)
    ensures Signature(tools, filenames, "999999", added, platform)
            == Signature(tools', filenames, "999999", added, platform)
  {
    forall f | f in filenames
      ensures AgreeOn(tools, tools', f, ClangCalls(f, tools.read(f), "999999", added))
    {
      forall d | d in ClangCalls(f, tools.read(f), "999999", added)
        ensures tools.clang(f, tools.read(f), d) == tools'.clang(f, tools.read(f), d)
      {
        ExperimentalCalls(f, tools.read(f), added, d);
      }
    }
    SignatureAgrees(tools, tools', filenames, "999999", added, platform);
  }

  lemma {:induction false} GatherOfUnversioned(tools: Tools, filenames: seq<string>, version: string,
                                               added: seq<string>, version': string, added': seq<string>)
    requires forall f :: f in filenames ==> f == "internal/cef_string.h" || !Contains(tools.read(f), "#if CEF_API")
    ensures Gather(tools, filenames, version, added) == Gather(tools, filenames, version', added')
  {
    if filenames == [] {
    } else {
      assert filenames[0] in filenames && forall f :: f in filenames[1..] ==> f in filenames;
      GatherOfUnversioned(tools, filenames[1..], version, added, version', added');
      hide Contains, CachedObjects;
    }
  }

  /** Files that do not mention the API have the same signature for every version. */
  lemma {:induction false} UnversionedFilesIgnoreVersion(tools: Tools, filenames: seq<string>, version: string,
      added: seq<string>,
                                                         version': string, added': seq<string>, platform: string)
    requires forall f :: f in filenames ==> f == "internal/cef_string.h" || !Contains(tools.read(f), "#if CEF_API")
    ensures Signature(tools, filenames, version, added, platform)
            == Signature(tools, filenames, version', added', platform)
  {
    GatherOfUnversioned(tools, filenames, version, added, version', added');
  }
}
