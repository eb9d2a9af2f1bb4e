/**
 The CEF branch version (tools/cef_version.py): a fold over the commits of a branch, a possible
 override by the last API version, a memo, and the three-part dylib version.
 */
module BranchVersion {
  import opened Options
  import opened PythonStrings
  import opened VersionText

  const VERSIONS_JSON_FILE: string := "cef_api_versions.json"

  /** A commit is the list of files it changed. */
  type Commit = seq<string>

  predicate Touches(commit: Commit) {
    exists i :: 0 <= i < |commit| && Contains(commit[i], VERSIONS_JSON_FILE)
  }

  datatype Version = Version(minor: nat, patch: nat)

  // ----- What the fold computes -----

  /** The number of commits that touch the versions file. */
  function TouchCount(commits: seq<Commit>): nat {
    if commits == [] then 0
    else TouchCount(commits[..|commits| - 1]) + if Touches(commits[|commits| - 1]) then 1 else 0
  }

  /** The number of commits after the last one that touches the versions file. */
  ghost predicate IsTrailingRun(commits: seq<Commit>, n: nat) {
    && n <= |commits|
    && (forall i :: |commits| - n <= i < |commits| ==> !Touches(commits[i]))
    && (n < |commits| ==> Touches(commits[|commits| - n - 1]))
  }

  /** The state of the source tree the version depends on. */
  datatype Tree = Tree(commits: seq<Commit>, lastVersion: Option<string>, chromeMajor: nat)

  /** The revision of the last API version, if it is one of this Chrome major version. */
  function Revision(tree: Tree): Option<nat> {
    if tree.lastVersion.None? || Parse(tree.lastVersion.value).None? then None
    else
      var (major, revision) := Parse(tree.lastVersion.value).value;
      if major == tree.chromeMajor then Some(revision) else None
  }

  /** A leading revision replaces the counted minor version. */
  function Override(minor: nat, revision: Option<nat>): nat {
    if revision.Some? && revision.value > minor then revision.value else minor
  }

  function TrailingRun(commits: seq<Commit>): (n: nat)
    ensures IsTrailingRun(commits, n)
  {
    if commits == [] || Touches(commits[|commits| - 1]) then 0
    else
      var init := commits[..|commits| - 1];
      var n := TrailingRun(init);
      assert forall i :: 0 <= i < |init| ==> commits[i] == init[i];
      n + 1
  }

  function BranchVersionOf(tree: Tree): Version {
    Version(Override(TouchCount(tree.commits), Revision(tree)), TrailingRun(tree.commits))
  }

  /** `version_parse` accepts what the versions file names as the last version. */
  predicate Readable(tree: Tree) {
    tree.lastVersion.Some? ==> Parse(tree.lastVersion.value).Some?
  }

  class VersionFormatter {
    var branchVersion: Option<Version>

    constructor ()
      ensures branchVersion == None
    {
      branchVersion := None;
    }

    method Reset()
      modifies this
      ensures branchVersion == None
    {
      branchVersion := None;
    }

    /** The loops over commits and their files. */
    method CountCommits(commits: seq<Commit>) returns (minor: nat, bugfix: nat)
      ensures minor == TouchCount(commits)
      ensures bugfix == TrailingRun(commits)
    {
      minor, bugfix := 0, 0;
      for i := 0 to |commits|
        invariant minor == TouchCount(commits[..i])
        invariant bugfix == TrailingRun(commits[..i])
      {
        var files := commits[i];
        var found := false;
        var j := 0;
        while j < |files|
          invariant 0 <= j <= |files| && !found
          invariant forall k :: 0 <= k < j ==> !Contains(files[k], VERSIONS_JSON_FILE)
        {
          if IndexOf(files[j], VERSIONS_JSON_FILE) >= 0 {
            found := true;
            break;
          }
          j := j + 1;
        }
        assert found <==> Touches(files) by {
          assert found ==> Contains(files[j], VERSIONS_JSON_FILE);
        }
        assert commits[..i + 1][..i] == commits[..i];
        if found {
          minor := minor + 1;
          bugfix := 0;
        } else {
          bugfix := bugfix + 1;
        }
      }
      assert commits[..|commits|] == commits;
    }

    /**
     `get_cef_branch_version_components`: computed once, then remembered until `Reset`; None where
     `version_parse` asserts, which leaves the memo empty.
     */
    method GetBranchVersion(tree: Tree) returns (r: Option<Version>)
      modifies this
      ensures old(branchVersion).Some? ==> r == old(branchVersion)
      ensures old(branchVersion).None? ==>
                r == if Readable(tree) then Some(BranchVersionOf(tree)) else None
      ensures branchVersion == r
    {
      if branchVersion.None? {
        var minor, bugfix := CountCommits(tree.commits);
        if tree.lastVersion.Some? {
          var parsed := Parse(tree.lastVersion.value);
          if parsed.None? {
            return None;
          }
          var (major, revision) := parsed.value;
          if major == tree.chromeMajor && revision > minor {
            minor := revision;
          }
        }
        branchVersion := Some(Version(minor, bugfix));
      }
      r := branchVersion;
    }
  }

  lemma {:induction false} RunsEqual(commits: seq<Commit>, n: nat, m: nat)
    requires IsTrailingRun(commits, n) && IsTrailingRun(commits, m)
    ensures m <= n
  {
    if n < |commits| {
      var i := |commits| - n - 1;
      assert Touches(commits[i]);
    }
  }

  /** Before the override: all touching commits, and the run of others at the end. */
  lemma {:induction false} FoldMeaning(commits: seq<Commit>, n: nat)
    ensures IsTrailingRun(commits, n) <==> n == TrailingRun(commits)
  {
    if IsTrailingRun(commits, n) {
      RunsEqual(commits, n, TrailingRun(commits));
      RunsEqual(commits, TrailingRun(commits), n);
    }
  }

  /** A commit touches the versions file if the file's name occurs in the path of a changed file. */
  lemma {:induction false} TouchesIff(commit: Commit)
    ensures Touches(commit) <==> exists i :: 0 <= i < |commit| && Contains(commit[i], "cef_api_versions.json")
  {
  }

  lemma {:induction false} TouchingAppend(commits: seq<Commit>, commit: Commit)
    ensures (set i | 0 <= i < |commits + [commit]| && Touches((commits + [commit])[i]))
            == (set i | 0 <= i < |commits| && Touches(commits[i])) + if Touches(commit) then {|commits|} else {}
  {
    var all := commits + [commit];
    assert forall i :: 0 <= i < |commits| ==> all[i] == commits[i];
    assert all[|commits|] == commit;
  }

  /** The count is the number of positions at which a commit touches the versions file. */
  lemma {:induction false} TouchCountMeaning(commits: seq<Commit>)
    ensures TouchCount(commits) == |set i | 0 <= i < |commits| && Touches(commits[i])|
  {
    hide Touches;
    if commits == [] {
    } else {
      var init, last := commits[..|commits| - 1], commits[|commits| - 1];
      assert commits == init + [last];
      TouchCountMeaning(init);
      TouchingAppend(init, last);
      assert |init| !in (set i | 0 <= i < |init| && Touches(init[i]));
    }
  }

  // ----- Growth of the version -----

  predicate Below(a: Version, b: Version) {
    a.minor < b.minor || (a.minor == b.minor && a.patch < b.patch)
  }

  function Appended(tree: Tree, commit: Commit, lastVersion: Option<string>): Tree {
    Tree(tree.commits + [commit], lastVersion, tree.chromeMajor)
  }

  lemma {:induction false} FoldStep(commits: seq<Commit>, commit: Commit)
    ensures TouchCount(commits + [commit]) == TouchCount(commits) + if Touches(commit) then 1 else 0
    ensures TrailingRun(commits + [commit]) == if Touches(commit) then 0 else TrailingRun(commits) + 1
  {
    assert (commits + [commit])[..|commits|] == commits;
  }

  /** The revision that counts: 0 when the last API version is missing or of another major. */
  function Lead(tree: Tree): nat {
    if Revision(tree).Some? then Revision(tree).value else 0
  }

  /** A commit that leaves the API versions alone raises the version by one patch. */
  lemma {:induction false} OtherCommitRaisesPatch(tree: Tree, commit: Commit)
    requires !Touches(commit)
    ensures var v, v' := BranchVersionOf(tree), BranchVersionOf(Appended(tree, commit, tree.lastVersion));
            v' == Version(v.minor, v.patch + 1) && Below(v, v')
  {
    hide Parse, TouchCount, TrailingRun;
    FoldStep(tree.commits, commit);
  }

  /**
   A commit that touches the versions file raises the version exactly when the revision did not
   lead the count, or has risen; whatever the file names before and after.
   */
  lemma {:induction false} TouchingCommitRaisesIff(tree: Tree, commit: Commit, lastVersion: Option<string>)
    requires Touches(commit)
    ensures Below(BranchVersionOf(tree), BranchVersionOf(Appended(tree, commit, lastVersion)))
            <==> Lead(tree) <= TouchCount(tree.commits) || Lead(tree) < Lead(Appended(tree, commit, lastVersion))
  {
    hide Revision, TouchCount, TrailingRun;
    FoldStep(tree.commits, commit);
  }

  /** As long as the branch has no API version of its major, every commit raises the version. */
  lemma {:induction false} UnmatchedMajorAlwaysRaises(tree: Tree, commit: Commit, lastVersion: Option<string>)
    requires Revision(tree).None?
    requires !Touches(commit) ==> lastVersion == tree.lastVersion
    ensures Below(BranchVersionOf(tree), BranchVersionOf(Appended(tree, commit, lastVersion)))
  {
    if Touches(commit) {
      TouchingCommitRaisesIff(tree, commit, lastVersion);
    } else {
      OtherCommitRaisesPatch(tree, commit);
    }
  }

  // ----- A whole branch -----

  /** One commit of a history, with the last API version after it. */
  datatype Entry = Entry(commit: Commit, lastVersion: Option<string>)

  function Next(tree: Tree, e: Entry): Tree {
    Appended(tree, e.commit, e.lastVersion)
  }

  function TreeAfter(start: Tree, history: seq<Entry>): Tree
    decreases history
  {
    if history == [] then start else TreeAfter(Next(start, history[0]), history[1..])
  }

  /** The last version is read from the versions file: only a commit that touches the file changes it. */
  predicate Consistent(start: Tree, history: seq<Entry>)
    decreases history
  {
    history != [] ==>
      && (!Touches(history[0].commit) ==> history[0].lastVersion == start.lastVersion)
      && Consistent(Next(start, history[0]), history[1..])
  }

  /** A touching commit raises the revision where the revision leads the count. */
  predicate Disciplined(start: Tree, history: seq<Entry>)
    decreases history
  {
    history != [] ==>
      && (Touches(history[0].commit) && Lead(start) > TouchCount(start.commits) ==>
            Lead(start) < Lead(Next(start, history[0])))
      && Disciplined(Next(start, history[0]), history[1..])
  }

  predicate RisesEachTime(start: Tree, history: seq<Entry>)
    decreases history
  {
    history != [] ==>
      && Below(BranchVersionOf(start), BranchVersionOf(Next(start, history[0])))
      && RisesEachTime(Next(start, history[0]), history[1..])
  }

  /** Every commit of a branch raises the version exactly when the branch is disciplined. */
  lemma {:induction false} RisesEachTimeIff(start: Tree, history: seq<Entry>)
    requires Consistent(start, history)
    ensures RisesEachTime(start, history) <==> Disciplined(start, history)
    decreases history
  {
    if history == [] {
    } else {
      var e := history[0];
      if Touches(e.commit) {
        TouchingCommitRaisesIff(start, e.commit, e.lastVersion);
      } else {
        OtherCommitRaisesPatch(start, e.commit);
      }
      RisesEachTimeIff(Next(start, e), history[1..]);
    }
  }

  lemma {:induction false} RisingReachesHigher(start: Tree, history: seq<Entry>)
    requires history != [] && RisesEachTime(start, history)
    ensures Below(BranchVersionOf(start), BranchVersionOf(TreeAfter(start, history)))
    decreases history
  {
    hide BranchVersionOf;
    if |history| > 1 {
      RisingReachesHigher(Next(start, history[0]), history[1..]);
    }
  }

  /** Versions strictly increase along a disciplined history. */
  lemma {:induction false} VersionsIncrease(start: Tree, history: seq<Entry>)
    requires history != [] && Consistent(start, history) && Disciplined(start, history)
    ensures Below(BranchVersionOf(start), BranchVersionOf(TreeAfter(start, history)))
  {
    RisesEachTimeIff(start, history);
    RisingReachesHigher(start, history);
  }

  // ----- The dylib version -----

  datatype Dylib = Dylib(first: string, second: nat, third: nat)

  /** `get_dylib_version_string`: major and minor are written without a separator. */
  function DylibVersion(major: nat, minor: nat, patch: nat): Dylib {
    Dylib(Decimal(major) + Decimal(minor), patch / 255, patch % 255)
  }

  /** The second and third components fit the format's limit of 255 exactly for patches below 65280. */
  lemma {:induction false} DylibFitsIff(major: nat, minor: nat, patch: nat)
    ensures var d := DylibVersion(major, minor, patch); patch == 255 * d.second + d.third && d.third < 255
    ensures DylibVersion(major, minor, patch).second <= 255 <==> patch < 65280
  {
  }

  lemma {:induction false} SplitNumerals(a: string, b: string, a': string, b': string)
    requires a + b == a' + b' && |a| <= |a'|
    ensures a <= a' && b == a'[|a|..] + b'
  {
    var s := a + b;
    assert a == s[..|a|] && a' == s[..|a'|];
    assert b == s[|a|..] && b' == s[|a'|..];
  }

  lemma {:induction false} PatchInjective(patch: nat, patch': nat)
    requires patch / 255 == patch' / 255 && patch % 255 == patch' % 255
    ensures patch == patch'
  {
    assert patch == 255 * (patch / 255) + patch % 255;
    assert patch' == 255 * (patch' / 255) + patch' % 255;
  }

  /** Versions of majors with equally many digits are told apart. */
  lemma {:induction false} DylibInjective(major: nat, minor: nat, patch: nat, major': nat, minor': nat, patch': nat)
    requires DylibVersion(major, minor, patch) == DylibVersion(major', minor', patch')
    requires |Decimal(major)| == |Decimal(major')|
    ensures major == major' && minor == minor' && patch == patch'
  {
    PatchInjective(patch, patch');
    hide Decimal;
    SplitNumerals(Decimal(major), Decimal(minor), Decimal(major'), Decimal(minor'));
    assert Decimal(major')[|Decimal(major)|..] + Decimal(minor') == Decimal(minor');
    DecimalInjective(major, major');
    DecimalInjective(minor, minor');
  }

  /** Some versions of the two majors are written alike. */
  ghost predicate Collide(major: nat, major': nat) {
    exists minor: nat, patch: nat, minor': nat, patch': nat ::
      DylibVersion(major, minor, patch) == DylibVersion(major', minor', patch')
  }

  /** The digits of `major` begin those of `major'`, and the next digit can begin a minor version. */
  predicate Shadows(major: nat, major': nat) {
    var d, d' := Decimal(major), Decimal(major');
    |d| < |d'| && d <= d' && d'[|d|] != '0'
  }

  lemma {:induction false} CollidingShadows(major: nat, minor: nat, major': nat, minor': nat)
    requires Decimal(major) + Decimal(minor) == Decimal(major') + Decimal(minor')
    requires |Decimal(major)| < |Decimal(major')|
    ensures Shadows(major, major')
  {
    var d, d' := Decimal(major), Decimal(major');
    SplitNumerals(d, Decimal(minor), d', Decimal(minor'));
    DecimalLeads(minor);
    assert |Decimal(minor)| > 1 && Decimal(minor)[0] == d'[|d|];
  }

  lemma {:induction false} ShadowCollides(major: nat, major': nat)
    requires Shadows(major, major')
    ensures Collide(major, major')
  {
    var d, d' := Decimal(major), Decimal(major');
    var rest := d'[|d|..] + Decimal(0);
    assert rest[0] == d'[|d|];
    DecimalOfValue(rest);
    var minor := ValueIn(10, rest);
    assert d + (d'[|d|..] + Decimal(0)) == d' + Decimal(0);
    assert DylibVersion(major, minor, 0) == DylibVersion(major', 0, 0);
  }

  lemma {:induction false} CollideSymmetric(major: nat, major': nat)
    requires Collide(major, major')
    ensures Collide(major', major)
  {
    var minor: nat, patch: nat, minor': nat, patch': nat :|
      DylibVersion(major, minor, patch) == DylibVersion(major', minor', patch');
    assert DylibVersion(major', minor', patch') == DylibVersion(major, minor, patch);
  }

  lemma {:induction false} OneShadows(major: nat, major': nat)
    requires major != major' && Collide(major, major')
    ensures Shadows(major, major') || Shadows(major', major)
  {
    var minor: nat, patch: nat, minor': nat, patch': nat :|
      DylibVersion(major, minor, patch) == DylibVersion(major', minor', patch');
    if |Decimal(major)| < |Decimal(major')| {
      CollidingShadows(major, minor, major', minor');
    } else if |Decimal(major')| < |Decimal(major)| {
      CollidingShadows(major', minor', major, minor);
    } else {
      DylibInjective(major, minor, patch, major', minor', patch');
    }
  }

  /** Exactly which different majors have versions that are written alike. */
  lemma {:induction false} DylibCollidesIff(major: nat, major': nat)
    requires major != major'
    ensures Collide(major, major') <==> Shadows(major, major') || Shadows(major', major)
  {
    if Collide(major, major') {
      OneShadows(major, major');
    }
    if Shadows(major, major') {
      ShadowCollides(major, major');
    }
    if Shadows(major', major) {
      ShadowCollides(major', major);
      CollideSymmetric(major', major);
    }
  }

  /** For instance, 13.31.p and 133.1.p are written alike. */
  lemma {:induction false} DylibCollides(patch: nat)
    ensures DylibVersion(13, 31, patch) == DylibVersion(133, 1, patch)
  {
    assert Decimal(1) == "" + "1" && Decimal(3) == "" + "3";
    assert Decimal(13) == Decimal(1) + "3" == "13";
    assert Decimal(31) == Decimal(3) + "1" == "31";
    assert Decimal(133) == Decimal(13) + "3" == "133";
  }
}
