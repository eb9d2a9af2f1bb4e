/**
 C API names (tools/cef_parser.py, get_capi_name): CamelCaps names become underscore names, class
 names get an optional version and the suffix `_t`. Characters are classified as ASCII.
 */
module CapiNames {
  import opened Options
  import opened PythonStrings
  import opened Sequences
  import opened VersionText

  predicate IsUpper(c: char) {
    'A' <= c <= 'Z'
  }

  predicate IsLower(c: char) {
    'a' <= c <= 'z'
  }

  predicate IsAlnum(c: char) {
    IsUpper(c) || IsLower(c) || IsDigit(c)
  }

  function LowerChar(c: char): char {
    if IsUpper(c) then (c as int + 32) as char else c
  }

  function Lower(s: string): string {
    Map(LowerChar, s)
  }

  /** An upper case letter after a lower case letter or digit starts a new word. */
  predicate Boundary(last: char, c: char) {
    (IsUpper(c) || IsLower(c)) && UpperChar(c) == c && IsAlnum(last) && LowerChar(last) == last
  }

  /** The underscore form of a name. */
  function Snake(s: string): string {
    if s == [] then "" else
      var n := |s| - 1;
      Snake(s[..n]) + (if n > 0 && Boundary(s[n - 1], s[n]) then "_" else "") + [LowerChar(s[n])]
  }

  /** Drop the first occurrence of `part`; the whole text if there is none. */
  function DropFirst(s: string, part: string): string {
    var pos := IndexOf(s, part);
    if pos >= 0 then s[..pos] + s[pos + |part|..] else s
  }

  function CapiName(cppname: string, isClassName: bool, prefix: Option<string>, version: Option<nat>): string {
    var name := Snake(cppname);
    var versioned := if isClassName && version.Some? then name + ("_" + Decimal(version.value)) else name;
    var suffixed := if isClassName then versioned + "_t" else versioned;
    match prefix
    case None => suffixed
    case Some(p) => p + "_" + (if "cef" <= p then DropFirst(suffixed, p[3..]) else suffixed)
  }

  lemma {:induction false} SnakeStep(t: string, c: char)
    ensures Snake(t + [c])
            == Snake(t) + (if t != "" && Boundary(t[|t| - 1], c) then "_" else "") + [LowerChar(c)]
  {
    assert (t + [c])[..|t|] == t;
  }

  /** The loop of `get_capi_name`: one pass over the characters. */
  method Underscore(cppname: string) returns (result: string)
    ensures result == Snake(cppname)
  {
    assert Snake(cppname[..0]) == "";
    hide Snake;
    result := "";
    var lastchr: string := "";
    for i := 0 to |cppname|
      invariant result == Snake(cppname[..i])
      invariant result == "" <==> i == 0
      invariant lastchr == if i == 0 then "" else [cppname[i - 1]]
    {
      var c := cppname[i];
      SnakeStep(cppname[..i], c);
      assert cppname[..i + 1] == cppname[..i] + [c];
      if |result| > 0 && (IsUpper(c) || IsLower(c)) && UpperChar(c) == c
         && lastchr != "" && IsAlnum(lastchr[0]) && LowerChar(lastchr[0]) == lastchr[0] {
        result := result + "_";
      }
      result := result + [LowerChar(c)];
      lastchr := [c];
    }
    assert cppname[..|cppname|] == cppname;
  }

  /** `get_capi_name`: the underscore form, then suffixes and prefix. */
  method GetCapiName(cppname: string, isClassName: bool, prefix: Option<string>, version: Option<nat>)
    returns (result: string)
    ensures result == CapiName(cppname, isClassName, prefix, version)
  {
    result := Underscore(cppname);
    if isClassName && version.Some? {
      result := result + ("_" + Decimal(version.value));
    }
    if isClassName {
      result := result + "_t";
    }
    if prefix.Some? {
      var p := prefix.value;
      if "cef" <= p {
        var pos := IndexOf(result, p[3..]);
        if pos >= 0 {
          result := result[..pos] + result[pos + |p[3..]|..];
        }
      }
      result := p + "_" + result;
    }
  }

  // ----- Names made of words -----

  /** A word: an upper case letter followed by lower case letters and digits. */
  predicate IsWord(w: string) {
    |w| >= 2 && IsUpper(w[0]) && forall i :: 1 <= i < |w| ==> IsLower(w[i]) || IsDigit(w[i])
  }

  /** Among them Cef, V8 and Browser2, but not URL. */
  lemma {:induction false} WordExamples()
    ensures IsWord("Cef") && IsWord("V8") && IsWord("Browser2") && !IsWord("URL") && !IsWord("cef") && !IsWord("C")
  {
    assert "URL"[1] == 'R' && "cef"[0] == 'c';
  }

  predicate AreWords(ws: seq<string>) {
    ws != [] && forall w :: w in ws ==> IsWord(w)
  }

  function Capitalize(s: string): string {
    if s == "" then "" else [UpperChar(s[0])] + s[1..]
  }

  lemma {:induction false} CapitalizeLower(w: string)
    requires IsWord(w)
    ensures Capitalize(Lower(w)) == w
    ensures '_' !in Lower(w) && Lower(w) != "" && IsLower(Lower(w)[0])
  {
    forall i | 0 <= i < |w|
      ensures Capitalize(Lower(w))[i] == w[i] && Lower(w)[i] != '_'
    {
      assert i == 0 ==> UpperChar(LowerChar(w[0])) == w[0];
    }
  }

  lemma {:induction false} SnakePlain(t: string, c: char)
    requires !IsUpper(c)
    ensures Snake(t + [c]) == Snake(t) + [c]
  {
    SnakeStep(t, c);
  }

  lemma {:induction false} SnakeUpper(t: string, c: char)
    requires IsUpper(c) && (t != "" ==> EndsWord(t))
    ensures Snake(t + [c]) == Snake(t) + (if t == "" then "" else "_") + [LowerChar(c)]
  {
    SnakeStep(t, c);
  }

  predicate EndsWord(s: string) {
    s != "" && (IsLower(s[|s| - 1]) || IsDigit(s[|s| - 1]))
  }

  predicate NoUpper(s: string) {
    forall i :: 0 <= i < |s| ==> !IsUpper(s[i])
  }

  /** Characters that are not upper case never start a word. */
  lemma {:induction false} SnakeRest(t: string, x: string)
    requires NoUpper(x)
    ensures Snake(t + x) == Snake(t) + x
  {
    if x == "" {
      assert t + x == t && Snake(t) + x == Snake(t);
    } else {
      hide Snake, IsUpper;
      var n := |x| - 1;
      SnakeRest(t, x[..n]);
      SnakePlain(t + x[..n], x[n]);
      assert x == x[..n] + [x[n]];
      Regroup(t, x[..n], [x[n]]);
      Regroup(Snake(t), x[..n], [x[n]]);
    }
  }

  lemma {:induction false} LowerWord(w: string)
    requires IsWord(w)
    ensures Lower(w) == [LowerChar(w[0])] + w[1..] && NoUpper(w[1..])
  {
  }

  /** Appending a word to a name that ends in a word. */
  lemma {:induction false} SnakeWord(s: string, w: string)
    requires IsWord(w)
    requires s != "" ==> EndsWord(s)
    ensures Snake(s + w) == Snake(s) + (if s == "" then "" else "_") + Lower(w)
  {
    LowerWord(w);
    SnakeUpper(s, w[0]);
    SnakeRest(s + [w[0]], w[1..]);
    assert w == [w[0]] + w[1..];
    Regroup(s, [w[0]], w[1..]);
    Regroup(Snake(s) + (if s == "" then "" else "_"), [LowerChar(w[0])], w[1..]);
  }

  lemma {:induction false} WordEnds(s: string, w: string)
    requires IsWord(w)
    ensures EndsWord(s + w)
  {
    assert (s + w)[|s + w| - 1] == w[|w| - 1];
  }

  lemma {:induction false} FlattenLast(ws: seq<string>, w: string)
    ensures Flatten(ws + [w]) == Flatten(ws) + w
  {
    FlattenAppend(ws, [w]);
    assert [w][1..] == [] && Flatten([w]) == w;
  }

  lemma {:induction false} MapLast(ws: seq<string>, w: string)
    ensures Map(Lower, ws + [w]) == Map(Lower, ws) + [Lower(w)]
  {
    MapAppend(Lower, ws, [w]);
    assert [w][1..] == [];
  }

  /** A name made of words becomes the lower case words joined by underscores. */
  lemma {:induction false} SnakeOfWords(ws: seq<string>)
    requires AreWords(ws)
    ensures EndsWord(Flatten(ws))
    ensures Snake(Flatten(ws)) == Join(Map(Lower, ws), "_")
  {
    var init, last := ws[..|ws| - 1], ws[|ws| - 1];
    assert ws == init + [last];
    assert last in ws && forall w :: w in init ==> w in ws;
    FlattenLast(init, last);
    WordEnds(Flatten(init), last);
    MapLast(init, last);
    if init == [] {
      SnakeWord("", last);
      assert Snake("") + "" + Lower(last) == Lower(last);
      assert Flatten(init) + last == last == "" + last;
      assert Map(Lower, ws) == [Lower(last)];
    } else {
      SnakeOfWords(init);
      SnakeWord(Flatten(init), last);
      JoinAppend(Map(Lower, init), [Lower(last)], "_");
    }
  }

  function Unsnake(s: string): string {
    Flatten(Map(Capitalize, Split(s, '_')))
  }

  lemma {:induction false} LowerWords(ws: seq<string>)
    requires AreWords(ws)
    ensures Map(Capitalize, Map(Lower, ws)) == ws
    ensures forall p :: p in Map(Lower, ws) ==> '_' !in p && p != "" && IsLower(p[0])
  {
    forall i | 0 <= i < |ws|
      ensures Capitalize(Lower(ws[i])) == ws[i]
      ensures '_' !in Lower(ws[i]) && Lower(ws[i]) != "" && IsLower(Lower(ws[i])[0])
    {
      CapitalizeLower(ws[i]);
    }
  }

  /** Capitalising the words of the underscore form gives the name back. */
  lemma {:induction false} UnsnakeSnake(ws: seq<string>)
    requires AreWords(ws)
    ensures Unsnake(Snake(Flatten(ws))) == Flatten(ws)
  {
    SnakeOfWords(ws);
    LowerWords(ws);
    SplitJoin(Map(Lower, ws), '_');
  }

  // ----- Struct names -----

  function StructName(cppname: string, version: Option<nat>): string {
    CapiName(cppname, true, None, version)
  }

  /** The underscore-separated parts of a struct name. */
  function StructParts(ws: seq<string>, version: Option<nat>): seq<string> {
    Map(Lower, ws) + (if version.Some? then [Decimal(version.value)] else []) + ["t"]
  }

  lemma {:induction false} DecimalPlain(n: nat)
    ensures '_' !in Decimal(n) && IsDigit(Decimal(n)[0])
  {
  }

  lemma {:induction false} JoinLast(parts: seq<string>, p: string)
    requires parts != []
    ensures Join(parts + [p], "_") == Join(parts, "_") + ("_" + p)
  {
    JoinAppend(parts, [p], "_");
  }

  lemma {:induction false} StructNameJoined(ws: seq<string>, version: Option<nat>)
    requires AreWords(ws)
    ensures StructName(Flatten(ws), version) == Join(StructParts(ws, version), "_")
  {
    var words := Map(Lower, ws);
    SnakeOfWords(ws);
    assert "_" + "t" == "_t";
    if version.Some? {
      JoinLast(words, Decimal(version.value));
      JoinLast(words + [Decimal(version.value)], "t");
    } else {
      assert words + [] == words;
      JoinLast(words, "t");
    }
  }

  lemma {:induction false} StructPartsPlain(ws: seq<string>, version: Option<nat>)
    requires AreWords(ws)
    ensures forall p :: p in StructParts(ws, version) ==> '_' !in p
  {
    LowerWords(ws);
    if version.Some? {
      DecimalPlain(version.value);
    }
  }

  lemma {:induction false} StructNameParts(ws: seq<string>, version: Option<nat>)
    requires AreWords(ws)
    ensures Split(StructName(Flatten(ws), version), '_') == StructParts(ws, version)
  {
    StructNameJoined(ws, version);
    StructPartsPlain(ws, version);
    SplitJoin(StructParts(ws, version), '_');
  }

  lemma {:induction false} LastWord(ws: seq<string>)
    requires AreWords(ws)
    ensures var words := Map(Lower, ws);
            words != [] && words[|words| - 1] != "" && !IsDigit(words[|words| - 1][0])
  {
    LowerWords(ws);
    var words := Map(Lower, ws);
    assert words[|words| - 1] in words;
  }

  /** Whether the last part before the suffix is a number tells whether there is a version. */
  lemma {:induction false} VersionPart(ws: seq<string>, v: Option<nat>)
    requires AreWords(ws)
    ensures var parts := StructParts(ws, v);
            && |parts| >= 2 && parts[|parts| - 2] != ""
            && (v.Some? <==> IsDigit(parts[|parts| - 2][0]))
            && (v.Some? ==> parts[|parts| - 2] == Decimal(v.value) && parts[..|parts| - 2] == Map(Lower, ws))
            && (v.None? ==> parts[..|parts| - 1] == Map(Lower, ws))
  {
    LastWord(ws);
    if v.Some? {
      DecimalPlain(v.value);
    }
    hide Map, Lower, Decimal, AreWords, IsDigit;
  }

  /** A struct name determines the class and the version. */
  lemma {:induction false} StructNameInjective(ws: seq<string>, v: Option<nat>, ws': seq<string>, v': Option<nat>)
    requires AreWords(ws) && AreWords(ws')
    requires StructName(Flatten(ws), v) == StructName(Flatten(ws'), v')
    ensures ws == ws' && v == v'
  {
    StructNameParts(ws, v);
    StructNameParts(ws', v');
    VersionPart(ws, v);
    VersionPart(ws', v');
    if v.Some? {
      DecimalInjective(v.value, v'.value);
    }
    assert Map(Lower, ws) == Map(Lower, ws');
    LowerWords(ws);
    LowerWords(ws');
  }

  // ----- Prefixed names -----

  /** The name of a static function: prefixed with the name of its class. */
  function StaticName(clsname: string, name: string): string {
    CapiName(name, false, Some(CapiName(clsname, false, None, None)), None)
  }

  /** Dropping takes out the first occurrence and nothing else; putting it back restores the text. */
  lemma {:induction false} DropFirstMeaning(s: string, part: string)
    ensures !Contains(s, part) || part == "" ==> DropFirst(s, part) == s
    ensures Contains(s, part) ==>
              var pos := IndexOf(s, part);
              && 0 <= pos <= |DropFirst(s, part)| == |s| - |part|
              && s == DropFirst(s, part)[..pos] + part + DropFirst(s, part)[pos..]
              && forall j :: OccursAt(s, part, j) ==> pos <= j
  {
    IndexOfFirst(s, part);
    var pos := IndexOf(s, part);
    if pos >= 0 {
      assert s[pos..pos + |part|] == part;
      assert s == s[..pos] + part + s[pos + |part|..];
    }
  }

  /** Joining the words of two names joins their underscore forms. */
  lemma {:induction false} SnakeOfBoth(cs: seq<string>, fs: seq<string>)
    requires AreWords(cs) && AreWords(fs)
    ensures Snake(Flatten(cs + fs)) == Snake(Flatten(cs)) + "_" + Snake(Flatten(fs))
  {
    SnakeOfWords(cs);
    SnakeOfWords(fs);
    SnakeOfWords(cs + fs);
    MapAppend(Lower, cs, fs);
    JoinAppend(Map(Lower, cs), Map(Lower, fs), "_");
  }

  /** The part of a class name that a function name is not meant to repeat. */
  function Subprefix(p: string): string {
    if "cef" <= p then p[3..] else ""
  }

  lemma {:induction false} PrefixedForm(name: string, p: string)
    ensures CapiName(name, false, Some(p), None) == p + "_" + DropFirst(Snake(name), Subprefix(p))
  {
    DropFirstMeaning(Snake(name), "");
  }

  /**
   A static function is named like the words of its class followed by its own, exactly when its
   name does not repeat what follows `cef` in the class's name.
   */
  lemma {:induction false} StaticNameIff(cs: seq<string>, fs: seq<string>)
    requires AreWords(cs) && AreWords(fs)
    ensures var sub := Subprefix(Snake(Flatten(cs)));
            StaticName(Flatten(cs), Flatten(fs)) == Snake(Flatten(cs + fs))
            <==> sub == "" || !Contains(Snake(Flatten(fs)), sub)
  {
    var p, name := Snake(Flatten(cs)), Snake(Flatten(fs));
    SnakeOfBoth(cs, fs);
    PrefixedForm(Flatten(fs), p);
    DropFirstMeaning(name, Subprefix(p));
    hide *;
    assert |p + "_" + name| == |p + "_"| + |name|;
  }

  lemma {:induction false} StructNameTail(name: string, v: Option<nat>)
    ensures StructName(name, v) == Snake(name) + (if v.Some? then "_" + Decimal(v.value) + "_t" else "_t")
  {
    if v.Some? {
      Regroup(Snake(name), "_" + Decimal(v.value), "_t");
    }
  }

  /** For any one class, whatever its name is like, the struct name determines the version. */
  lemma {:induction false} StructVersionInjective(name: string, v: Option<nat>, v': Option<nat>)
    requires StructName(name, v) == StructName(name, v')
    ensures v == v'
  {
    StructNameTail(name, v);
    StructNameTail(name, v');
    hide *;
    var k := |Snake(name)|;
    var t := if v.Some? then "_" + Decimal(v.value) + "_t" else "_t";
    var t' := if v'.Some? then "_" + Decimal(v'.value) + "_t" else "_t";
    assert t == (Snake(name) + t)[k..] == (Snake(name) + t')[k..] == t';
    if v.Some? && v'.Some? {
      assert Decimal(v.value) == t[1..|t| - 2] == Decimal(v'.value);
      DecimalInjective(v.value, v'.value);
    }
  }

  // ----- Idempotence -----

  lemma {:induction false} SnakeHasNoUpper(s: string)
    ensures NoUpper(Snake(s))
  {
    if s == [] {
    } else {
      SnakeHasNoUpper(s[..|s| - 1]);
    }
  }

  /** Converting a converted name changes nothing. */
  lemma {:induction false} CapiNameIdempotent(s: string)
    ensures CapiName(CapiName(s, false, None, None), false, None, None) == CapiName(s, false, None, None)
  {
    SnakeHasNoUpper(s);
    SnakeRest("", Snake(s));
    assert "" + Snake(s) == Snake(s);
  }

  // ----- Character by character -----

  /**
   The underscore form of any ASCII name: a character is put in lower case, after an underscore if
   it is an upper case letter that follows a lower case letter or a digit.
   */
  lemma {:induction false} SnakeCharacters(t: string, c: char)
    ensures Snake("") == ""
    ensures Snake(t + [c])
            == Snake(t)
               + (if t != "" && 'A' <= c <= 'Z' && ('a' <= t[|t| - 1] <= 'z' || '0' <= t[|t| - 1] <= '9')
                  then "_" else "")
               + [if 'A' <= c <= 'Z' then (c as int + 32) as char else c]
  {
    SnakeStep(t, c);
  }

  /** An upper case letter after an upper case letter starts no word: CefURL becomes cef_url. */
  lemma {:induction false} AcronymExample()
    ensures Snake("CefURL") == "cef_url"
  {
    SnakeCharacters("", 'C');
    SnakeCharacters("C", 'e');
    SnakeCharacters("Ce", 'f');
    SnakeCharacters("Cef", 'U');
    SnakeCharacters("CefU", 'R');
    SnakeCharacters("CefUR", 'L');
    hide Snake;
    assert "" + ['C'] == "C" && "C" + ['e'] == "Ce" && "Ce" + ['f'] == "Cef";
    assert "Cef" + ['U'] == "CefU" && "CefU" + ['R'] == "CefUR" && "CefUR" + ['L'] == "CefURL";
  }
}
