# A model of the CEF translator, its API versions and a few small state machines

The Chromium Embedded Framework ships a C API that stays binary compatible over many versions. The
tools in `tools/` read the C++ headers, work out every version of every class, generate the C
headers and structs, and hash the result. This project models that logic in Dafny, together with
the reference counter, the API selection in `libcef_dll`, and three small parsers of the tool
chain, and proves what the repository relies on.

`dafny verify dfyconfig.toml` checks everything. One module models one component:

| module | component |
|---|---|
| `ClassVersions` | lifetimes, all versions of a class over its inheritance chain, rounding down to the closest version |
| `MemberOrder` | members ordered by version, the shortcut that skips the ordering |
| `ClassObjects` | the class objects of the translator with their caches |
| `VersionText`, `VersionChecks` | version texts as the tool and as the C preprocessor read them; the emitted `#if` checks, preprocessed |
| `StructLayout` | the struct a client compiles against the struct the library generates |
| `ApiHash`, `ApiSignature`, `PreparedText` | the API signature: gathering, stable sorting, filtering by platform, text normalisation |
| `Attributes`, `CapiNames`, `CommentScanner`, `ArgumentSplit` | the small parsers and printers of `tools/cef_parser.py` |
| `BazelUtil`, `CrashServer`, `BranchVersion` | template expansion, chunked decoding, the branch version |
| `RefCount`, `ApiSelection` | reference counting under all interleavings; API selection and the name indexes |
| `Options`, `Sequences`, `StableSort`, `PythonStrings` | shared: lists, Python's stable `sorted`, Python's string methods |

Code that changes state is a class or a method with loops, proved equal to a specification
function; the theorems are about those functions.

## What was found

Where a promise of the code or its documentation fails, the model keeps the code and states exactly
when the promise holds.

- The base struct embedded for a version does not depend on whether that version or the class's
  closest version is used: while the class exists this holds for the direct parent. For a further
  ancestor it holds throughout the class's life exactly when the classes in between clamp away none
  of the ancestor's versions in it (`AncestorCoherenceIff`). A class in between that is removed early
  does (`CoherenceFailsPastRemovedParent`).
- `version_make` pads majors below 100 with a leading zero, and `version_as_variable` emits that
  text as a C literal, which is octal. Tool and preprocessor agree on a version text exactly when
  it has no leading zero or its number is below 8 (`FaithfulIff`, `MadeVersionFaithfulIff`). An
  emitted check then means what the tool computes; `SingleCheckMeansExistsIff`,
  `RangeCheckMeansExistsIff` and, for the versions that the header admits, `ClientCheckMeansExistsIff`
  give the exact condition. `OctalExample` is a version a client sees too early.
- A client has a struct that agrees with the library's exactly when the class and all its ancestors
  exist at the client's version and no method of the chain is, at that version, already removed
  although not yet added (`BinaryCompatibleIff`). The client gets a placeholder slot for such a
  method, and the library leaves it out (`GapExample`). Below a removed parent the library still has
  a struct, and the client has none (`RemovedParentExample`).
- `get_virtual_funcs` without versioned methods ignores the limit, which is visible only for a
  negative limit (`FastPathIff`).
- `get_comment` on a declaration without a line break before it scans the end of the text instead,
  because `rfind` answers -1 (`FirstLineComment`). Its remark about keeping leading spaces does not
  hold for the line as a whole: the line is stripped before the slashes are removed, so only spaces
  after the slashes stay.
- `cef_api_hash` answers null for an unknown entry, and has configured the version all the same
  (`UnknownEntryConfigures`, `FailureChangesNothingIff`).
- The branch version does not rise on a commit that touches the versions file when the last API
  revision leads the count and does not rise (`TouchingCommitRaisesIff`, `RisesEachTimeIff`). Dylib
  versions write major and minor without a separator, so 13.31 and 133.1 look alike;
  `DylibCollidesIff` says for which majors this happens.
- The 32-bit reference counter is right modulo 2^32. The object is safe exactly as long as no
  reference is released while there are several and their number is 1 modulo 2^32
  (`SafeThroughoutIff`); at most 2^32 references at a time are enough for that, and
  `WrapDeletesEarly` shows a sequence beyond it that deletes early.
- The chunk decoder refuses chunk extensions, which section 7.1.1 of RFC 9112 allows
  (`ExtensionRefused`), does not look at the two bytes after the data, and waits forever at the end
  of the stream (`StarvesIff`). `OutcomeIff` decides every outcome.

## Model

| member | source | states |
|---|---|---|
| `ClassVersions.FindClosestNotGreater` | tools/cef_parser.py:466-472 | the answer is the greatest member not above the target, None only if all members are above it |
| `ClassVersions.BoundaryIff` | tools/cef_parser.py:454-463 | the boundaries of a list of methods are 0 and the versions that add or remove one of them |
| `ClassVersions.AllVersionsSucceedsIff` | tools/cef_parser.py:1335-1365 | the assertion on the version list passes exactly when no class of the chain has an empty lifetime |
| `ClassVersions.VersionMembers` | tools/cef_parser.py:1335-1365 | which numbers are versions of a class: those of its life that are its own boundary, a method's boundary or a version of its parent |
| `ClassVersions.VersionListWellFormed` | tools/cef_parser.py:1335-1373 | the list is headed by `added` or 0, the class exists at each member, and there is no closest version exactly below the head |
| `ClassVersions.ClosestMonotone` | tools/cef_parser.py:1371-1373 | rounding down is monotone |
| `ClassVersions.ParentCoherence` | tools/cef_parser.py:1166-1175 | while the class exists at v, the parent's closest version to v and to the class's closest version of v are the same |
| `ClassVersions.AncestorCoherence` | tools/cef_parser.py:1149-1175 | the same for every ancestor, when the class and the classes in between exist at v |
| `ClassVersions.AliveChainCoheres` | tools/cef_parser.py:1149-1175 | while the whole chain exists, every ancestor's closest version is the same for v and for the class's closest version of v |
| `ClassVersions.InheritedIff` | tools/cef_parser.py:1343-1360 | an ancestor's version is a version of the class exactly when the clamps of the classes in between let it through |
| `ClassVersions.CoherenceFailsPastRemovedParent` | tools/cef_parser.py:1335-1365 | without that condition it fails: a three-class chain |
| `ClassVersions.AncestorCoherenceIff` | tools/cef_parser.py:1335-1373 | coherence throughout the life of a class holds exactly when the classes from it up to the ancestor let every version of the ancestor in that life through |
| `ClassVersions.SpanUnchangedByRounding` | tools/cef_parser.py:454-472 | no boundary of a method lies between the closest version and the requested one |
| `ClassVersions.RoundingLosesNothing` | tools/make_cpptoc_impl.py:535-556 | while the class and all its ancestors exist at v, own and inherited methods existing at v are, in order, those existing at the closest version |
| `ClassVersions.NestedIsAlive` | tools/cef_parser.py:1325-1329 | with lifetimes inside the parents', a class that exists has all its ancestors |
| `ClassVersions.RoundingLosesNothingWhenNested` | tools/cef_parser.py:1371-1373 | with nested lifetimes nothing is lost at any version of the class's life |
| `ClassVersions.RoundingLosesNothingIff` | tools/cef_parser.py:1371-1373 | nothing is lost throughout the life exactly when every version in it at which a method of the chain appears or disappears is a boundary that reaches the class |
| `MemberOrder.VersionOrderFuncs` | tools/cef_parser.py:431-451 | the buckets built and joined by the loops are the stable sort by `added`, cut at the limit |
| `MemberOrder.BucketsAreOrdered` | tools/cef_parser.py:446-451 | concatenating the buckets of all versions up to v in ascending order is the stable sort cut at v |
| `MemberOrder.OrderedIsPrefix` | tools/cef_parser.py:447-450 | the members up to a limit are a prefix of all members |
| `MemberOrder.LayoutGrowsAtTheEnd` | tools/cef_parser.py:431-451 | for v <= v' the members up to v are a prefix of the members up to v' |
| `MemberOrder.ExistingLayoutPrefixIff` | tools/cef_parser.py:1717-1725 | the existing members at v stay in place at v' exactly when none of them is removed in between |
| `MemberOrder.ParsedSpan` | tools/cef_parser.py:383-401 | a method's `added` is the number of the one value its text gives to the key `added`, its `removed` that of the key `removed`; parsing fails exactly on a second value, a bare key or an invalid version |
| `MemberOrder.SpanRoundTrip` | tools/cef_parser.py:1702-1718 | a text that gives two made versions to the keys parses to their numbers, each as its own bound |
| `MemberOrder.MentionsIff` | tools/cef_parser.py:354-363 | the test on the raw text is a search for either word anywhere in it |
| `MemberOrder.VersionMentioned` | tools/cef_parser.py:354-363 | a method with a parsed version has `added` or `removed` in its raw text |
| `MemberOrder.FastPathIff` | tools/cef_parser.py:1257-1268 | skipping the order is invisible exactly when a method mentions a version, there are no methods, or the limit is absent or not negative |
| `ClassObjects.ObjClass.constructor` | tools/cef_parser.py:1072-1085 | a new object is valid, both caches are empty, and the flag is set by the substring test |
| `ClassObjects.CollectVersions` | tools/cef_parser.py:454-463 | the loop collects 0 and the boundaries of the versioned methods |
| `ClassObjects.ClampVersions` | tools/cef_parser.py:1353-1360 | clamping step by step keeps the class's own first version |
| `ClassObjects.ObjClass.GetAllVersions` | tools/cef_parser.py:1335-1365 | through all caches of the chain the answer is the version list; every cache touched is as before or holds what it stands for |
| `ClassObjects.ObjClass.GetClosestVersion` | tools/cef_parser.py:1371-1373 | the greatest version not above the requested one, or the failing assertion exactly on an empty lifetime; caches as above |
| `ClassObjects.ObjClass.GetVirtualFuncs` | tools/cef_parser.py:1257-1268 | with or without the cache the answer is the plain order, for no limit and every limit from 0 on, and the source order where no order is asked for; caches as above |
| `ClassObjects.ObjClass.StillValid` | tools/cef_parser.py:1337-1365 | a class stays valid whatever was asked of other classes that share its ancestors |
| `ClassObjects.AllVersionsOf` | tools/make_capi_versions_header.py:125-126 | asking every class of a header in turn gives each its own version list, and all stay valid |
| `VersionText.MakeRoundTrip` | tools/version_util.py:24-46 | parsing a made version gives major and revision back, and its number is 100 times the major plus the revision |
| `VersionText.NumericMeaning` | tools/version_util.py:49-52 | exactly which texts are versions and which number each has; the two names in any mix of cases |
| `VersionText.VariableMeaning` | tools/version_util.py:141-147 | names are emitted as CEF_EXPERIMENTAL and CEF_NEXT, numbers as they are |
| `VersionText.MadeVersionsOrdered` | tools/version_util.py:24-46 | the numbers of made versions compare as major and revision do |
| `VersionText.FaithfulIff` | tools/version_util.py:130-147 | tool and preprocessor read the same number exactly for the two names, texts without a leading zero, and numbers below 8 |
| `VersionText.MadeVersionFaithfulIff` | tools/version_util.py:24-33 | a made version is read alike exactly from major 100 on |
| `VersionChecks.CheckTextParts` | tools/cef_parser.py:376-380 | the text of a check is the macro's name, an opening parenthesis, its arguments and a closing one |
| `VersionChecks.EmittedTextsEqualIff` | tools/cef_parser.py:406-410 | comparing two emitted checks as texts compares the checks |
| `VersionChecks.PlainMemberIff` | tools/cef_parser.py:402-415 | a method is emitted without a conditional exactly when it has no version, or its class's own |
| `VersionChecks.CheckMeansExists` | include/cef_api_hash.h:90-117 | for texts that tool and preprocessor read alike, an emitted check is true at a client version exactly when `exists_at_version`, and always true in the library |
| `VersionChecks.SingleCheckMeansExistsIff` | tools/cef_parser.py:366-380 | for a single bound the check means this at all versions exactly when the literal is read alike |
| `VersionChecks.RangeCheckMeansExistsIff` | tools/cef_parser.py:366-380 | for a range it does so exactly when both literals are read alike, or both compile and the range is empty in either reading |
| `VersionChecks.ClientCheckMeansExistsIff` | include/cef_api_hash.h:72-77 | for the versions a client can have: exactly when the literals compile and the two readings of the bounds agree on the released versions, NEXT and EXPERIMENTAL |
| `VersionChecks.OctalExample` | tools/cef_parser.py:366-380 | 014500 is 14500 to the tool and 6464 to the preprocessor, so a client built for 13300 gets the API |
| `VersionChecks.PreprocessMember` | tools/make_capi_header.py:24-46 | the lines of one method, also where the repeated check is dropped, leave its function, its placeholder or nothing |
| `VersionChecks.PreprocessClass` | tools/make_capi_header.py:149-183 | the guarded class leaves exactly the intended slots, in order, or nothing |
| `VersionChecks.NameSurvivesIff` | tools/cef_parser.py:402-415 | in a class with any methods, a function of a name survives exactly when the class and a method of that name exist |
| `VersionChecks.MethodSurvivesIff` | tools/cef_parser.py:402-415 | with distinct names, each method inside its class's wrapper survives exactly when class and method exist |
| `StructLayout.EmbeddedIsParents` | tools/cef_parser.py:1149-1175 | the embedded struct is the parent's own struct for the same version, the base class's, or the unversioned one where the parent has none |
| `StructLayout.EmbeddedParts` | tools/cef_parser.py:1149-1175 | for a parent named with words, splitting the embedded name gives these words, the parent's closest version and `t` |
| `StructLayout.FirstStructName` | tools/cef_parser.py:1149-1153 | the struct for the first version is the one for the version that added the class |
| `StructLayout.ParentStructNameCoherent` | tools/cef_parser.py:1166-1175 | the embedded struct's name is the same for a version and for the class's closest version |
| `StructLayout.ParentStructNameTellsVersion` | tools/cef_parser.py:1166-1175 | two embedded struct names of one class, whatever the names, are equal exactly when the parent's versions are |
| `StructLayout.MembersCompare` | tools/make_capi_versions_header.py:25-35 | a class's slots, client against library, differ only by methods already removed although not yet added |
| `StructLayout.StructsCompare` | tools/make_capi_versions_header.py:125-135 | the same along the whole chain of embedded bases, while it exists, with the exact difference in length |
| `StructLayout.DeclaredIff` | tools/make_capi_header.py:149-173 | a client gets a complete struct exactly when the class and all its ancestors exist at its version |
| `StructLayout.BinaryCompatibleIff` | tools/make_capi_versions_header.py:125-135 | there is a client struct and it equals the library struct of the closest version exactly when the class and its ancestors exist and no method of the chain is already removed at that version although not yet added |
| `StructLayout.GapExample` | tools/make_capi_header.py:38-44 | a method added at 13400 and removed at 13300 makes them differ at 13350 |
| `StructLayout.RemovedParentExample` | tools/make_capi_header.py:149-173 | a parent removed at 13400 leaves the client without a struct for which the library has one |
| `StructLayout.SameRoundingSameStructIff` | tools/make_capi_header.py:163-173 | two client versions with the same closest version see the same exactly when the chain exists at both or at neither |
| `ApiHash.Examine` | tools/cef_api_hash.py:296-322 | the branches on a file decide whether it is kept, parsed per version or per platform |
| `ApiHash.CefApiHasher.constructor` | tools/cef_api_hash.py:272-322 | every file lands in exactly the dictionary its content asks for |
| `ApiHash.CefApiHasher.Process` | tools/cef_api_hash.py:284-322 | one more file is stored; a repeated name leaves the object as it is |
| `ApiHash.CefApiHasher.ObjectsOf` | tools/cef_api_hash.py:333-344 | the dictionaries answer what the file itself would give for this version |
| `ApiHash.CefApiHasher.GatherAll` | tools/cef_api_hash.py:329-348 | the loop collects the objects of all files in order |
| `ApiHash.CefApiHasher.Calculate` | tools/cef_api_hash.py:324-363 | one signature each for windows, mac and linux |
| `ApiHash.Signatures` | tools/cef_api_hash.py:356-361 | each platform's signature is made from the same sorted objects |
| `ApiHash.EqualKeysSameFile` | tools/cef_api_hash.py:350-351 | equal sort keys come from one file and one name |
| `ApiHash.ClassOfGather` | tools/cef_api_hash.py:350-351 | the objects with one key are those of its file, once for every listing |
| `ApiHash.SortedObjectsStable` | tools/cef_api_hash.py:350-351 | the sorted objects do not depend on the order of the files |
| `ApiHash.SignatureStable` | tools/cef_api_hash.py:350-363 | nor does the signature of any platform |
| `ApiSignature.SignatureMeaning` | tools/cef_api_hash.py:324-363 | exactly which declarations of which files enter a platform's signature, found with which defines, in which order, and how their texts are joined |
| `ApiSignature.VersionReachesClang` | tools/cef_api_hash.py:108-110 | for files that mention the API, what clang does without the define of the requested version does not matter |
| `ApiSignature.ExperimentalHasNoVersion` | tools/cef_api_hash.py:137-139 | for the experimental version, what clang does with a version define does not matter |
| `ApiSignature.SignatureAgrees` | tools/cef_api_hash.py:95-155 | a signature depends on clang only through the listed calls |
| `ApiSignature.UnversionedFilesIgnoreVersion` | tools/cef_api_hash.py:283-322 | files that do not mention the API have the same signature for every version |
| `ApiSignature.LexIsCodePoint` | tools/cef_api_hash.py:350-351 | the sort order is by code point |
| `ApiHash.SignatureOfPlatform` | tools/cef_api_hash.py:231-233 | the signature is the stable sort of that platform's and the universal objects alone |
| `ApiHash.OtherPlatformsDoNotMatter` | tools/cef_api_hash.py:231-233 | files whose objects belong to other platforms change nothing |
| `ApiHash.SpacingDoesNotMatter` | tools/cef_api_hash.py:168-215 | headers in which the same declarations are found, apart from white space between words or after opening parentheses, give the same signature |
| `PreparedText.PreparedFromWords` | tools/cef_api_hash.py:212-215 | the prepared text is a function of the words of the text |
| `PreparedText.SpaceDoesNotMatter` | tools/cef_api_hash.py:212-215 | white space between two parts may be any non-empty white space |
| `PreparedText.PreparedAlikeIff` | tools/cef_api_hash.py:212-215 | two texts are prepared alike exactly when their words are the same once each word that ends in an opening parenthesis is fused with the next |
| `PreparedText.PreparedSplits` | tools/cef_api_hash.py:212-215 | a prepared text is its fused words joined by blanks |
| `PreparedText.UnchangedIffNormal` | tools/cef_api_hash.py:212-215 | unchanged texts are exactly those with single blanks, none at the ends or after a parenthesis |
| `PreparedText.PrepareIdempotent` | tools/cef_api_hash.py:212-215 | preparing twice is preparing once |
| `StableSort.SortClass` | tools/cef_api_hash.py:350-351 | elements with equal keys keep their order |
| `StableSort.SortFromClasses` | tools/cef_api_hash.py:350-351 | a stable sort depends on its input only through the order within equal keys |
| `StableSort.SortFilter` | tools/cef_api_hash.py:350-358 | filtering before or after the sort is the same |
| `Attributes.ParseDict` | tools/cef_parser.py:475-501 | the loop gives the dictionary of all pairs, or fails on a part with two equals signs |
| `Attributes.AttribListInSourceOrder` | tools/cef_parser.py:1230-1239 | a name's values are exactly those written, in source order |
| `Attributes.PairsAcross` | tools/cef_parser.py:479-482 | parts between commas are read one after the other |
| `Attributes.NameMeaning` | tools/cef_parser.py:481-491 | a name with any white space around it is a flag, white space alone is nothing |
| `Attributes.ValueMeaning` | tools/cef_parser.py:484-489 | a name and a value, with any white space around the equals sign |
| `Attributes.AcceptedIff` | tools/cef_parser.py:484-486 | a text is accepted exactly when no part has two equals signs |
| `Attributes.PrintList` | tools/cef_parser.py:516-518 | a list entry prints one item for each value |
| `Attributes.PrintDict` | tools/cef_parser.py:504-519 | the loops print all entries in order |
| `Attributes.RoundTrip` | tools/cef_parser.py:475-519 | parsing a printed well-formed dictionary gives it back, entries in order |
| `Attributes.ParsedIsWellFormed` | tools/cef_parser.py:475-501 | every dictionary read from a text is well formed, if it can be printed |
| `Attributes.RoundTripIff` | tools/cef_parser.py:475-519 | of the dictionaries that can be printed, exactly the well-formed ones survive printing and parsing |
| `Attributes.KeyOccursInText` | tools/cef_parser.py:354-363 | every key of a parsed text occurs in the raw text |
| `CapiNames.Underscore` | tools/cef_parser.py:70-81 | the loop computes the underscore form |
| `CapiNames.GetCapiName` | tools/cef_parser.py:68-98 | underscore form, version, suffix and prefix, with the duplicated part dropped |
| `CapiNames.SnakeCharacters` | tools/cef_parser.py:70-81 | character by character: lower case, after an underscore exactly for an upper case letter that follows a lower case letter or digit |
| `CapiNames.AcronymExample` | tools/cef_parser.py:70-81 | CefURL becomes cef_url |
| `CapiNames.SnakeOfWords` | tools/cef_parser.py:68-81 | a name made of words becomes the lower case words joined by underscores |
| `CapiNames.UnsnakeSnake` | tools/cef_parser.py:68-81 | capitalising the words inverts it |
| `CapiNames.StructNameInjective` | tools/cef_parser.py:83-87 | for names made of words a struct name determines class and version |
| `CapiNames.StructVersionInjective` | tools/cef_parser.py:83-87 | for any one class a struct name determines the version |
| `CapiNames.DropFirstMeaning` | tools/cef_parser.py:89-96 | dropping the duplicated part takes out its first occurrence and nothing else |
| `CapiNames.StaticNameIff` | tools/cef_parser.py:1671-1676 | a static function is named like its class's words followed by its own exactly when its name does not repeat what follows `cef` |
| `CapiNames.CapiNameIdempotent` | tools/cef_parser.py:68-98 | the plain form of a plain form is itself |
| `CommentScanner.AffixMeaning` | tools/cef_parser.py:130-142 | the slice comparisons test how a line begins and ends |
| `CommentScanner.PrevLineIsLast` | tools/cef_parser.py:107-114 | one step takes the last of the lines above and moves to its start |
| `CommentScanner.GetComment` | tools/cef_parser.py:117-149 | the loop ends on every text and gives the scan of the lines above |
| `CommentScanner.ScanReturnsRun` | tools/cef_parser.py:123-149 | the result is the `///` texts of the comment run at the end of the lines, in source order |
| `CommentScanner.EveryTextHasRun` | tools/cef_parser.py:123-149 | all lines end in such a run |
| `CommentScanner.CommentDirectlyAbove` | tools/cef_parser.py:117-149 | for a declaration with a line above, the comment is the `///` lines of the maximal run directly above |
| `CommentScanner.FirstLineComment` | tools/cef_parser.py:111-112 | with no line above, when the answer is empty: the end of the text is scanned |
| `CommentScanner.FirstLineTakesTrailingComment` | tools/cef_parser.py:111-112 | a declaration on the first line is given the comment at the end |
| `ArgumentSplit.ParseArgs` | tools/cef_parser.py:1432-1452 | the loop glues pieces and skips empty arguments, or runs past the end |
| `ArgumentSplit.SeparableGlues` | tools/cef_parser.py:1436-1442 | separable arguments come back from their pieces |
| `ArgumentSplit.AllSeparable` | tools/cef_parser.py:1436-1442 | arguments that come back are separable |
| `ArgumentSplit.SeparableIff` | tools/cef_parser.py:1436-1440 | separable means: no comma and (no `<` or some `>`), or one comma that a bracket open before it spans |
| `ArgumentSplit.SplitJoinIff` | tools/cef_parser.py:1430-1452 | joined arguments come back exactly when each has no comma and (no `<` or some `>`), or is `a,b` with `<` but no `>` in a and no further comma |
| `BazelUtil.Bazel.Print` | tools/bazel_util.py:25-33 | the last error holds the line and column of the position |
| `BazelUtil.Bazel.SubstituteName` | tools/bazel_util.py:59-83 | a known name gives its value, an unknown one nothing and an error |
| `BazelUtil.Bazel.ReplaceNext` | tools/bazel_util.py:56-89 | one step of the loop is one step of the expansion |
| `BazelUtil.Bazel.Substitute` | tools/bazel_util.py:36-95 | the loop ends and gives the expansion; the last error is the last problem met |
| `BazelUtil.SubstitutionOf` | tools/bazel_util.py:63-78 | the loop over a path list, and plain values |
| `BazelUtil.PathBelowBase` | tools/bazel_util.py:67-74 | a path below the base directory is quoted without it |
| `BazelUtil.PathElsewhere` | tools/bazel_util.py:71-74 | any other path is quoted after the prefix for absolute paths |
| `BazelUtil.PathTextsInOrder` | tools/bazel_util.py:65-74 | a list is written path by path, in order |
| `BazelUtil.PlaceholderMeaning` | tools/bazel_util.py:58-83 | a placeholder gives its plain value, nothing for an unknown name, or its path texts joined by the list delimiter |
| `BazelUtil.PathExample` | tools/bazel_util.py:144-160 | one file below `path/to` and one elsewhere |
| `BazelUtil.PositionRoundTrip` | tools/bazel_util.py:26-31 | line and column lead back to the position, on that line |
| `BazelUtil.ExpandTemplate` | tools/bazel_util.py:55-93 | a template expands to its literals and values, values never expanded again; no error exactly when all names have values |
| `BazelUtil.ExpandUnclosed` | tools/bazel_util.py:85-89 | an unclosed placeholder gives the expansion of the text before it, and an error |
| `BazelUtil.EveryTextIsTemplate` | tools/bazel_util.py:55-93 | these two cases cover every text |
| `BazelUtil.DefaultDelimiters` | tools/bazel_util.py:38-39 | with the default delimiters a literal has to be free of the opening one and a name of the closing one |
| `CrashServer.CrashHTTPRequestHandler.GetChunkSize` | tools/crash_server.py:171-178 | reads to just after the first CR LF and gives the number before it, or waits forever |
| `CrashServer.CrashHTTPRequestHandler.GetChunkData` | tools/crash_server.py:180-185 | reads the data and skips two bytes, fails on missing data, or raises for a size below -1 without reading |
| `CrashServer.CrashHTTPRequestHandler.UnchunkRequest` | tools/crash_server.py:187-208 | the loop gives the decoding and leaves what the decoding leaves |
| `CrashServer.OutcomeIff` | tools/crash_server.py:187-208 | for each outcome, exactly which streams have it: chunks, then a tail that ends decoding so |
| `CrashServer.DecodesIff` | tools/crash_server.py:187-208 | decoding succeeds exactly on framed streams, with their body, just after the last-chunk line |
| `CrashServer.StarvesIff` | tools/crash_server.py:171-178 | the size reader waits forever exactly on chunks followed by text without CR LF |
| `CrashServer.HexIsRead` | tools/crash_server.py:178 | every chunk-size of section 7.1 of RFC 9112 is read as its value |
| `CrashServer.HexDigits` | tools/crash_server.py:178 | the sixteen digits, letters in either case, have their values |
| `CrashServer.DigitsFromLeft` | tools/crash_server.py:178 | digits are read from left to right in base 16 |
| `CrashServer.SignedSizes` | tools/crash_server.py:178 | a sign may stand before the digits |
| `CrashServer.PrefixedSizes` | tools/crash_server.py:178 | so may 0x |
| `CrashServer.UnderscoredPrefix` | tools/crash_server.py:178 | 0x may be followed by one underscore |
| `CrashServer.GroupedSizes` | tools/crash_server.py:178 | digits in groups are read without their underscores |
| `CrashServer.GroupedIff` | tools/crash_server.py:178 | groups are joined by single underscores, nothing else is accepted |
| `CrashServer.PaddedSizes` | tools/crash_server.py:178 | white space around a size does not matter |
| `CrashServer.WireExample` | tools/crash_server.py:187-208 | ten bytes on the wire that decode to two |
| `CrashServer.DecodeEncode` | tools/crash_server.py:192-208 | decoding undoes chunked encoding, sizes in any case and with leading zeros |
| `CrashServer.ChunkingsDecodeAlike` | tools/crash_server.py:192-208 | two ways to cut one body decode alike |
| `CrashServer.ExtensionRefused` | tools/crash_server.py:171-178 | a size line with a chunk extension raises |
| `RefCount.RefCounted.AddRef` | include/cef_base.h:140-142 | through the atomic counter the object takes exactly the AddRef step of its threads |
| `RefCount.RefCounted.Release` | include/cef_base.h:143-149 | the object takes exactly the Release step; true exactly for the thread that goes on to delete, when the references number 1 modulo 2^32 |
| `RefCount.RefCounted.HasOneRef` | include/cef_base.h:150-152 | true exactly when the outstanding references number 1 modulo 2^32 |
| `RefCount.RefCounted.HasAtLeastOneRef` | include/cef_base.h:153-155 | false exactly when they number 0 modulo 2^32 |
| `RefCount.CountIsOutstanding` | include/cef_base.h:95-132 | on every sequence of steps of any threads the counter is the number of references, as a 32-bit value |
| `RefCount.ReleaseTakesIff` | include/cef_base.h:143-149 | a Release takes the object exactly when the references number 1 modulo 2^32 |
| `RefCount.SafeThroughoutIff` | include/cef_base.h:138-158 | the object stays safe after every step exactly when no reference is released while there are several and their number is 1 modulo 2^32; with at most 2^32 references it always does |
| `RefCount.ExactlyOneDeletes` | include/cef_base.h:143-149 | on such sequences at most one Release returns true, and one has exactly when the last reference is gone |
| `RefCount.NothingBesidesDelete` | include/cef_base.h:143-149 | after it only the deletion is possible, once |
| `RefCount.LifeExample` | include/cef_base.h:138-158 | a whole life over two threads: wrapped, handed over, released, deleted once |
| `RefCount.HasOneRefMeansSoleIff` | include/cef_base.h:150-152 | a holder that sees a count of one is the only holder exactly when at most 2^32 references are outstanding |
| `RefCount.WrapDeletesEarly` | include/cef_base.h:110 | beyond 2^32 references an object can be deleted while it is referenced |
| `BranchVersion.VersionFormatter.CountCommits` | tools/cef_version.py:75-94 | the loops count touching commits and the trailing run of others |
| `BranchVersion.TouchesIff` | tools/cef_version.py:83-88 | a commit touches the versions file if its name occurs in the path of a changed file |
| `BranchVersion.TouchCountMeaning` | tools/cef_version.py:90-92 | the count is the number of such commits |
| `BranchVersion.VersionFormatter.GetBranchVersion` | tools/cef_version.py:72-105 | the version is computed once, with the override, and then remembered |
| `BranchVersion.FoldMeaning` | tools/cef_version.py:90-94 | the patch number is the length of the run of other commits at the end, and nothing else is |
| `BranchVersion.OtherCommitRaisesPatch` | tools/cef_version.py:93-94 | a commit that leaves the versions file alone raises the patch by one |
| `BranchVersion.TouchingCommitRaisesIff` | tools/cef_version.py:90-102 | a touching commit raises the version exactly when the revision did not lead the count, or has risen; also where the revision appears, disappears or falls |
| `BranchVersion.UnmatchedMajorAlwaysRaises` | tools/cef_version.py:98-102 | while there is no API version of this major, every commit raises the version |
| `BranchVersion.RisesEachTimeIff` | tools/cef_version.py:72-105 | every commit of a branch raises the version exactly when each touching commit raises a revision that leads the count |
| `BranchVersion.VersionsIncrease` | tools/cef_version.py:72-105 | along such a branch, from any start, the version at the end is above the version at the start |
| `BranchVersion.DylibFitsIff` | tools/cef_version.py:262-268 | the second and third component are the quotient and remainder by 255; the second fits 255 exactly for patches below 65280, the third always |
| `BranchVersion.DylibInjective` | tools/cef_version.py:262-268 | for majors of equal length the dylib version determines the version |
| `BranchVersion.DylibCollidesIff` | tools/cef_version.py:262-268 | two different majors have versions that are written alike exactly when the digits of one begin the other's and the next digit is not 0 |
| `BranchVersion.DylibCollides` | tools/cef_version.py:267 | for instance 13.31 and 133.1 |
| `ApiSelection.Library.CefApiHash` | libcef_dll/libcef_dll2.cc:61-97 | the new state and the reply of one call; the static variables are those reached by all calls so far |
| `ApiSelection.Library.CefApiVersion` | libcef_dll/libcef_dll2.cc:99-101 | after any calls: -1 if none named a supported version, otherwise the first one that did |
| `ApiSelection.ConfiguredOnce` | libcef_dll/libcef_dll2.cc:64-76 | -1 until the first supported version is named, that version ever after |
| `ApiSelection.AnswersTheTableHash` | libcef_dll/libcef_dll2.cc:78-91 | at entries 0 and 1 exactly the one configured version is answered, with its table hash |
| `ApiSelection.AnswersByEntry` | libcef_dll/libcef_dll2.cc:78-96 | what each entry is answered with for the configured version, and null for any other |
| `ApiSelection.ChangesIff` | libcef_dll/libcef_dll2.cc:64-76 | a call changes the configuration exactly when it is the first to name a supported version |
| `ApiSelection.FailureChangesNothingIff` | libcef_dll/libcef_dll2.cc:78-96 | when a failing call leaves the configuration alone |
| `ApiSelection.UnknownEntryConfigures` | libcef_dll/libcef_dll2.cc:88-96 | an unknown entry is answered with null and configures |
| `ApiSelection.NameIndex.IdForName` | libcef_dll/libcef_dll2.cc:105-122 | before and after the index is built the answer is the last match in the table, or -1 |

## Left out

- ApiHash.CefApiHasher.Calculate: signatures are compared before SHA-1; clang, the regular expressions and file reading are parameters.
- ApiHash.CefApiHasher.ObjectsOf: the assertions around clang (the marker of `_prepare_content`, a non-empty result) are not modelled; debug files are left out.
- ClassObjects.ObjClass.constructor: requires attribute texts that parse, because where the source raises there is no object; the errors of single texts are in `Attributes.ParseDict` and `MemberOrder.ParseMethod`.
- ClassObjects.ObjClass.GetAllVersions: a class holds its parent instead of looking it up by name, so a missing or cyclic parent cannot be expressed.
- StructLayout.BinaryCompatibleIff: a slot is a method's name; argument types, return values and static functions are left out.
- Attributes.PrintDict: requires lists of strings, because Python raises on a list that holds a bare name.
- CapiNames.GetCapiName: letters and digits are ASCII.
- PreparedText.PreparedFromWords: white space is known up to U+00FF.
- BazelUtil.Bazel.Print: the message is kept as data instead of formatted text, and nothing is printed.
- CrashServer.CrashHTTPRequestHandler.UnchunkRequest: the uncompressed path only, on a stream that is complete; HTTP headers, multipart parsing and files are left out.
- RefCount.CountIsOutstanding: each operation of the atomic counter is one indivisible step; memory orders are left out.
- BranchVersion.DylibFitsIff: the division is exact, where the source divides floating-point numbers before truncating.
- BranchVersion.VersionFormatter.GetBranchVersion: git and the versions file are inputs.
- Reading and writing of the version files, the accessor methods of the parser classes, include lists, comment wrapping and copyright text.
- The interface headers under `include/` and the thin container wrappers in `libcef_dll/`: no logic of their own.
