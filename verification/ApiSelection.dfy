/**
 API selection and name lookup in libcef_dll/libcef_dll2.cc: the first call of `cef_api_hash` that
 names a supported version fixes the version for good, and each name table is indexed on first use.
 */
module ApiSelection {
  import opened Options

  /** An entry of kApiVersionHashes. */
  datatype VersionHash = VersionHash(version: int, hash: string)

  /** The first entry for a version. */
  function FindVersion(table: seq<VersionHash>, version: int): (r: Option<VersionHash>)
    ensures r.Some? ==> r.value in table && r.value.version == version
    ensures r.None? <==> forall i :: 0 <= i < |table| ==> table[i].version != version
    ensures r.Some? ==> exists i :: 0 <= i < |table| && table[i] == r.value
                                    && forall j :: 0 <= j < i ==> table[j].version != version
  {
    if table == [] then None
    else if table[0].version == version then
      assert table[0] == Some(table[0]).value;
      Some(table[0])
    else FindVersion(table[1..], version)
  }

  /** The static variables: the selected entry, and g_version. */
  datatype Config = Config(current: Option<VersionHash>, version: int)

  function Unset(): Config {
    Config(None, -1)
  }

  /** The selection made by a call, and what it returns; None for null. */
  function Select(table: seq<VersionHash>, c: Config, version: int): Config {
    if c.current.Some? then c
    else
      var found := FindVersion(table, version);
      if found.Some? then Config(found, version) else c
  }

  function Reply(c: Config, commitHash: string, version: int, entry: int): Option<string> {
    if c.current.None? || version != c.version then None
    else if entry == 0 || entry == 1 then Some(c.current.value.hash)
    else if entry == 2 then Some(commitHash)
    else None
  }

  // ----- Sequences of calls -----

  datatype Call = Call(version: int, entry: int)

  /** The state after a sequence of calls. */
  function After(table: seq<VersionHash>, c: Config, calls: seq<Call>): Config
    decreases calls
  {
    if calls == [] then c else After(table, Select(table, c, calls[0].version), calls[1..])
  }

  predicate Supported(table: seq<VersionHash>, version: int) {
    FindVersion(table, version).Some?
  }

  /** The first call that names a supported version. */
  function FirstSupported(table: seq<VersionHash>, calls: seq<Call>): (r: Option<int>)
    ensures r.Some? ==> Supported(table, r.value)
  {
    if calls == [] then None
    else if Supported(table, calls[0].version) then Some(calls[0].version)
    else FirstSupported(table, calls[1..])
  }

  lemma {:induction false} StaysSelected(table: seq<VersionHash>, c: Config, calls: seq<Call>)
    requires c.current.Some?
    ensures After(table, c, calls) == c
    decreases calls
  {
    if calls == [] {
    } else {
      StaysSelected(table, c, calls[1..]);
    }
  }

  /** -1 until the first supported version is named, and that version ever after. */
  lemma {:induction false} ConfiguredOnce(table: seq<VersionHash>, calls: seq<Call>)
    ensures After(table, Unset(), calls)
            == match FirstSupported(table, calls)
               case None => Unset()
               case Some(v) => Config(FindVersion(table, v), v)
  {
    if calls == [] {
    } else {
      if Supported(table, calls[0].version) {
        StaysSelected(table, Select(table, Unset(), calls[0].version), calls[1..]);
      } else {
        ConfiguredOnce(table, calls[1..]);
      }
    }
  }

  /** Over any calls, a call that is answered at entry 0 or 1 gets the hash of the one configured version. */
  lemma {:induction false} AnswersTheTableHash(table: seq<VersionHash>, commitHash: string,
      calls: seq<Call>, call: Call)
    requires call.entry == 0 || call.entry == 1
    ensures var c := After(table, Unset(), calls + [call]);
            Reply(c, commitHash, call.version, call.entry)
            == if FirstSupported(table, calls + [call]) == Some(call.version)
               then Some(FindVersion(table, call.version).value.hash) else None
  {
    ConfiguredOnce(table, calls + [call]);
  }

  /** Over any calls, what each entry of the configured version is answered with, and any other version. */
  lemma {:induction false} AnswersByEntry(table: seq<VersionHash>, commitHash: string, calls: seq<Call>, call: Call)
    ensures var r := Reply(After(table, Unset(), calls + [call]), commitHash, call.version, call.entry);
            if FirstSupported(table, calls + [call]) != Some(call.version) then r == None
            else if call.entry == 0 || call.entry == 1 then r == Some(FindVersion(table, call.version).value.hash)
            else if call.entry == 2 then r == Some(commitHash)
            else r == None
  {
    ConfiguredOnce(table, calls + [call]);
  }

  lemma {:induction false} AfterAppend(table: seq<VersionHash>, c: Config, calls: seq<Call>, call: Call)
    ensures After(table, c, calls + [call]) == Select(table, After(table, c, calls), call.version)
    decreases calls
  {
    if calls == [] {
      assert ([] + [call])[1..] == [];
    } else {
      assert (calls + [call])[1..] == calls[1..] + [call];
      AfterAppend(table, Select(table, c, calls[0].version), calls[1..], call);
    }
  }

  /**
   Whatever was called before, a call changes the configuration exactly when it is the first to name a
   supported version.
  */
  lemma {:induction false} ChangesIff(table: seq<VersionHash>, calls: seq<Call>, call: Call)
    ensures After(table, Unset(), calls + [call]) != After(table, Unset(), calls)
            <==> FirstSupported(table, calls).None? && Supported(table, call.version)
  {
    ConfiguredOnce(table, calls);
    AfterAppend(table, Unset(), calls, call);
  }

  /**
   A failing call leaves the configuration alone exactly when its entry is known or it is not the
   first to name a supported version.
  */
  lemma {:induction false} FailureChangesNothingIff(table: seq<VersionHash>, commitHash: string,
      calls: seq<Call>, call: Call)
    requires Reply(After(table, Unset(), calls + [call]), commitHash, call.version, call.entry).None?
    ensures After(table, Unset(), calls + [call]) == After(table, Unset(), calls)
            <==> 0 <= call.entry <= 2 || FirstSupported(table, calls).Some? || !Supported(table, call.version)
  {
    ChangesIff(table, calls, call);
    ConfiguredOnce(table, calls);
    AfterAppend(table, Unset(), calls, call);
  }

  /** A call with an unknown entry answers null and still configures the version. */
  lemma {:induction false} UnknownEntryConfigures(commitHash: string)
    ensures var table := [VersionHash(13300, "h")];
            && Reply(After(table, Unset(), [Call(13300, 7)]), commitHash, 13300, 7) == None
            && After(table, Unset(), [Call(13300, 7)]).version == 13300
  {
    var table := [VersionHash(13300, "h")];
    assert [Call(13300, 7)][1..] == [];
    assert After(table, Unset(), [Call(13300, 7)]) == Select(table, Unset(), 13300);
  }

  // ----- The static variables -----

  class Library {
    const table: seq<VersionHash>
    const commitHash: string
    var currentVersionHash: Option<VersionHash>
    var gVersion: int
    /** The calls so far. */
    ghost var calls: seq<Call>

    ghost predicate Valid()
      reads this
    {
      State() == After(table, Unset(), calls)
    }

    ghost function State(): Config
      reads this
    {
      Config(currentVersionHash, gVersion)
    }

    constructor (table: seq<VersionHash>, commitHash: string)
      ensures Valid() && State() == Unset() && calls == []
      ensures this.table == table && this.commitHash == commitHash
    {
      this.table := table;
      this.commitHash := commitHash;
      currentVersionHash := None;
      gVersion := -1;
      calls := [];
    }

    method CefApiHash(version: int, entry: int) returns (r: Option<string>)
      requires Valid()
      modifies this
      ensures Valid() && calls == old(calls) + [Call(version, entry)]
      ensures State() == Select(table, old(State()), version)
      ensures r == Reply(State(), commitHash, version, entry)
    {
      AfterAppend(table, Unset(), calls, Call(version, entry));
      calls := calls + [Call(version, entry)];
      if currentVersionHash.None? {
        var i := 0;
        while i < |table|
          invariant 0 <= i <= |table| && currentVersionHash == None && gVersion == old(gVersion)
          invariant FindVersion(table, version) == FindVersion(table[i..], version)
        {
          if version == table[i].version {
            currentVersionHash := Some(table[i]);
            break;
          }
          assert table[i..][1..] == table[i + 1..];
          i := i + 1;
        }
        if currentVersionHash.Some? {
          gVersion := version;
        }
      }
      if currentVersionHash.None? {
        return None;
      }
      if version != gVersion {
        return None;
      }
      match entry {
        case 0 => r := Some(currentVersionHash.value.hash);
        case 1 => r := Some(currentVersionHash.value.hash);
        case 2 => r := Some(commitHash);
        case _ => r := None;
      }
    }

    /** -1 as long as no call named a supported version, and ever after the first one that did. */
    method CefApiVersion() returns (r: int)
      requires Valid()
      ensures r == match FirstSupported(table, calls)
                   case None => -1
                   case Some(v) => v
    {
      ConfiguredOnce(table, calls);
      r := gVersion;
    }
  }

  // ----- The name tables -----

  datatype NameId = NameId(name: string, id: int)

  /** The last entry for a name; -1 if there is none. */
  function LastMatch(table: seq<NameId>, name: string): int {
    if table == [] then -1
    else if table[|table| - 1].name == name then table[|table| - 1].id
    else LastMatch(table[..|table| - 1], name)
  }

  predicate Named(table: seq<NameId>, name: string) {
    exists i :: 0 <= i < |table| && table[i].name == name
  }

  ghost predicate Indexes(index: map<string, int>, table: seq<NameId>) {
    && (forall name :: name in index <==> Named(table, name))
    && (forall name :: name in index ==> index[name] == LastMatch(table, name))
  }

  lemma {:induction false} NotNamed(table: seq<NameId>, name: string)
    requires !Named(table, name)
    ensures LastMatch(table, name) == -1
  {
    if table == [] {
    } else {
      assert forall i :: 0 <= i < |table| - 1 ==> table[..|table| - 1][i] == table[i];
      NotNamed(table[..|table| - 1], name);
    }
  }

  lemma {:induction false} IndexStep(index: map<string, int>, table: seq<NameId>, e: NameId)
    requires Indexes(index, table)
    ensures Indexes(index[e.name := e.id], table + [e])
  {
    var t := table + [e];
    assert t[..|table|] == table;
    forall name
      ensures Named(t, name) <==> Named(table, name) || name == e.name
    {
      if Named(table, name) {
        var i :| 0 <= i < |table| && table[i].name == name;
        assert t[i].name == name;
      }
      assert t[|table|].name == e.name;
    }
  }

  /** One of the `cef_id_for_*` functions with its static map. */
  class NameIndex {
    const table: seq<NameId>
    var stringToIdMap: map<string, int>

    /** Not built yet, or complete. */
    ghost predicate Valid()
      reads this
    {
      stringToIdMap == map[] || Indexes(stringToIdMap, table)
    }

    constructor (table: seq<NameId>)
      ensures Valid() && this.table == table
    {
      this.table := table;
      stringToIdMap := map[];
    }

    method IdForName(name: string) returns (id: int)
      requires Valid()
      modifies this
      ensures Valid()
      ensures id == LastMatch(table, name)
    {
      if stringToIdMap == map[] {
        for i := 0 to |table|
          invariant Indexes(stringToIdMap, table[..i])
        {
          assert table[..i + 1] == table[..i] + [table[i]];
          IndexStep(stringToIdMap, table[..i], table[i]);
          stringToIdMap := stringToIdMap[table[i].name := table[i].id];
        }
        assert table[..|table|] == table;
      }
      if name in stringToIdMap {
        return stringToIdMap[name];
      }
      NotNamed(table, name);
      return -1;
    }
  }
}
