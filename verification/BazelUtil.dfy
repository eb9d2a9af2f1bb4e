/**
 The template expander of tools/bazel_util.py. Placeholders `${name}` are replaced in one pass;
 the last problem is remembered with its line and column.
 */
module BazelUtil {
  import opened Options
  import opened PythonStrings
  import opened Sequences

  /** A variable's value: text (after `str()`), or a list of file paths. */
  datatype Value = Plain(text: string) | Paths(paths: seq<string>)

  /** The arguments that stay fixed during a call. */
  datatype Config = Config(
    variables: map<string, Value>,
    delimStart: string,
    delimEnd: string,
    pathListDelim: string,
    pathRelativeTo: Option<string>,
    pathAbsPrefix: string,
    dataLabel: string)

  datatype Problem = NoValue(name: string) | MissingClose(start: string)

  /** ERROR: label: problem at line:column. */
  datatype Error = Error(source: string, problem: Problem, line: nat, column: int)

  // ----- Values -----

  /** An empty base directory counts as none; a slash is added where it is missing. */
  function RelativeBase(c: Config): Option<string> {
    match c.pathRelativeTo
    case None => None
    case Some(p) =>
      if p == "" then None
      else if p[|p| - 1] != '/' then Some(p + "/")
      else Some(p)
  }

  function PathText(c: Config, path: string): string {
    var base := RelativeBase(c);
    var shown := if base.Some? && base.value <= path then path[|base.value|..] else c.pathAbsPrefix + path;
    "\"" + shown + "\""
  }

  function PathTexts(c: Config, paths: seq<string>): seq<string> {
    if paths == [] then [] else [PathText(c, paths[0])] + PathTexts(c, paths[1..])
  }

  /** What replaces a placeholder; nothing for an unknown name. */
  function Substitution(c: Config, name: string): string {
    if name !in c.variables then "" else
      match c.variables[name]
      case Plain(text) => text
      case Paths(paths) => Join(PathTexts(c, paths), c.pathListDelim)
  }

  // ----- One step over the remaining text -----

  /** The first placeholder of a text, or the lack of one. */
  datatype Cut =
    | NoHole
    | Hole(literal: string, name: string, rest: string)
    | Unclosed(literal: string, remainder: string)

  function CutFirst(c: Config, text: string): (r: Cut)
    ensures r.Hole? ==> |r.rest| < |text| && |r.literal| <= |text|
    ensures r.Unclosed? ==> |r.literal| <= |text|
  {
    var spos := IndexOf(text, c.delimStart);
    if spos < 0 then NoHole else
      var after := text[spos + |c.delimStart|..];
      var len := IndexOf(after, c.delimEnd);
      if len >= 0 && |c.delimStart| + len > 0 then Hole(text[..spos], after[..len], after[len + |c.delimEnd|..])
      else Unclosed(text[..spos], if len >= 0 then after[len..] else "")
  }

  /** The expansion of a text. */
  function Expand(c: Config, text: string): string
    decreases |text|
  {
    match CutFirst(c, text)
    case NoHole => text
    case Hole(literal, name, rest) => literal + Substitution(c, name) + Expand(c, rest)
    case Unclosed(literal, remainder) => literal + remainder
  }

  /** The line and column of a position, both counted from 1. */
  function LineOf(data: string, pos: nat): nat
    requires pos <= |data|
  {
    Count(data[..pos], '\n') + 1
  }

  function ColumnOf(data: string, pos: nat): int
    requires pos <= |data|
  {
    if LineOf(data, pos) > 1 then pos - LastIndexOf(data[..pos], '\n') else pos + 1
  }

  /** A problem and where it was met. */
  datatype Report = Report(pos: int, problem: Problem)

  /** At most the first five characters of a placeholder that is not closed. */
  function Shown(text: string): string {
    text[..if |text| >= 5 then 5 else |text|]
  }

  function Reported(c: Config, pos: int, name: string): seq<Report> {
    if name in c.variables then [] else [Report(pos, NoValue(name))]
  }

  /** The problems met in the last part `text` of a text of length `total`, in order. */
  function Problems(c: Config, total: nat, text: string): seq<Report>
    decreases |text|
  {
    match CutFirst(c, text)
    case NoHole => []
    case Hole(literal, name, rest) =>
      Reported(c, total - |text| + |literal|, name) + Problems(c, total, rest)
    case Unclosed(literal, remainder) =>
      [Report(total - |text| + |literal|, MissingClose(Shown(text[|literal|..])))]
  }

  function Last(reports: seq<Report>): Option<Report> {
    if reports == [] then None else Some(reports[|reports| - 1])
  }

  /** The message for a problem. */
  function Located(c: Config, data: string, r: Option<Report>): Option<Error> {
    match r
    case None => None
    case Some(Report(pos, problem)) =>
      if 0 <= pos <= |data| then Some(Error(c.dataLabel, problem, LineOf(data, pos), ColumnOf(data, pos))) else None
  }

  // ----- The module state and the loop -----

  class Bazel {
    /** LAST_ERROR */
    var lastError: Option<Error>

    constructor ()
      ensures lastError == None
    {
      lastError := None;
    }

    /** `_print`: compute line and column, and overwrite the last error. */
    method Print(source: string, data: string, pos: nat, problem: Problem)
      requires pos <= |data|
      modifies this
      ensures lastError == Some(Error(source, problem, LineOf(data, pos), ColumnOf(data, pos)))
    {
      var dataToPos := data[..pos];
      var line := Count(dataToPos, '\n');
      var posInLine := if line > 0 then pos - LastIndexOf(dataToPos, '\n') - 1 else pos;
      lastError := Some(Error(source, problem, line + 1, posInLine + 1));
    }

    /** The value of a known name; an unknown one is replaced by nothing and reported. */
    method SubstituteName(c: Config, data: string, spos: nat, name: string) returns (sub: string)
      requires spos <= |data|
      modifies this
      ensures sub == Substitution(c, name)
      ensures lastError == if name in c.variables then old(lastError)
                           else Located(c, data, Some(Report(spos, NoValue(name))))
    {
      sub := "";
      if name in c.variables {
        sub := SubstitutionOf(c, name);
      } else {
        Print(c.dataLabel, data, spos, NoValue(name));
      }
    }

    /** The body of the loop: the text that is added, and where to go on; -1 to stop. */
    method ReplaceNext(c: Config, data: string, epos: nat, spos: nat)
      returns (piece: string, next: int, ghost reports: seq<Report>)
      requires epos <= |data| && spos == Find(data, c.delimStart, epos)
      modifies this
      ensures if next >= 0 then
                && epos < next <= |data|
                && Expand(c, data[epos..]) == piece + Expand(c, data[next..])
                && Problems(c, |data|, data[epos..]) == reports + Problems(c, |data|, data[next..])
              else
                && Expand(c, data[epos..]) == piece
                && Problems(c, |data|, data[epos..]) == reports
      ensures lastError == if reports == [] then old(lastError) else Located(c, data, Last(reports))
    {
      hide Expand, Problems, Substitution, LineOf, ColumnOf;
      var end := Find(data, c.delimEnd, spos + |c.delimStart|);
      if end > spos {
        HoleStep(c, data, epos, spos, end);
        var name := data[spos + |c.delimStart|..end];
        reports := Reported(c, spos, name);
        var sub := SubstituteName(c, data, spos, name);
        piece := data[epos..spos] + sub;
        next := end + |c.delimEnd|;
      } else {
        var shown := data[spos..if spos + 5 <= |data| then spos + 5 else |data|];
        UnclosedStep(c, data, epos, spos, end);
        reports := [Report(spos, MissingClose(shown))];
        Print(c.dataLabel, data, spos, MissingClose(shown));
        piece := data[epos..spos];
        if end >= 0 {
          piece := piece + data[end..];
        } else {
          assert piece + "" == piece;
        }
        next := -1;
      }
    }

    /** `bazel_substitute`; it terminates for every pair of delimiters, empty ones included. */
    method Substitute(c: Config, data: string) returns (result: string)
      modifies this
      ensures result == Expand(c, data)
      ensures lastError == Located(c, data, Last(Problems(c, |data|, data)))
    {
      lastError := None;
      result := "";
      var epos: nat := 0;
      var spos := Find(data, c.delimStart, 0);
      ghost var reports: seq<Report> := [];
      assert data[0..] == data;
      while spos >= 0
        invariant epos <= |data| && spos == Find(data, c.delimStart, epos)
        invariant result + Expand(c, data[epos..]) == Expand(c, data)
        invariant reports + Problems(c, |data|, data[epos..]) == Problems(c, |data|, data)
        invariant lastError == Located(c, data, Last(reports))
        decreases |data| - epos
      {
        var piece, next, more := ReplaceNext(c, data, epos, spos);
        LastAppend(reports, more);
        if next < 0 {
          result := result + piece;
          return;
        }
        Regroup(result, piece, Expand(c, data[next..]));
        Regroup(reports, more, Problems(c, |data|, data[next..]));
        result := result + piece;
        reports := reports + more;
        epos := next;
        spos := Find(data, c.delimStart, epos);
      }
      NoHoleLeft(c, data, epos, result, reports);
      result := result + data[epos..];
    }
  }

  lemma {:induction false} LastAppend(a: seq<Report>, b: seq<Report>)
    ensures Last(a + b) == if b == [] then Last(a) else Last(b)
  {
    assert b == [] ==> a + b == a;
  }

  lemma {:induction false} NoHoleLeft(c: Config, data: string, epos: nat, result: string, reports: seq<Report>)
    requires epos <= |data| && Find(data, c.delimStart, epos) < 0
    ensures result + Expand(c, data[epos..]) == result + data[epos..]
    ensures reports + Problems(c, |data|, data[epos..]) == reports
  {
  }

  /** The replacement for a known name, path by path. */
  method SubstitutionOf(c: Config, name: string) returns (sub: string)
    requires name in c.variables
    ensures sub == Substitution(c, name)
  {
    match c.variables[name] {
      case Plain(text) => sub := text;
      case Paths(val) =>
        var paths: seq<string> := [];
        for i := 0 to |val|
          invariant paths + PathTexts(c, val[i..]) == PathTexts(c, val)
        {
          assert val[i..][1..] == val[i + 1..];
          assert paths + ([PathText(c, val[i])] + PathTexts(c, val[i + 1..]))
              == paths + [PathText(c, val[i])] + PathTexts(c, val[i + 1..]);
          paths := paths + [PathText(c, val[i])];
        }
        assert paths + [] == paths;
        sub := Join(paths, c.pathListDelim);
    }
  }

  /** The cut, given the two searches. */
  lemma {:induction false} CutAt(c: Config, text: string, i: nat, after: string, len: int)
    requires i == IndexOf(text, c.delimStart) && after == text[i + |c.delimStart|..]
    requires len == IndexOf(after, c.delimEnd)
    ensures CutFirst(c, text) == if len >= 0 && |c.delimStart| + len > 0
                                 then Hole(text[..i], after[..len], after[len + |c.delimEnd|..])
                                 else Unclosed(text[..i], if len >= 0 then after[len..] else "")
  {
  }

  /** Searching in the whole text from a position is cutting what remains there. */
  lemma {:induction false} FindIsCut(c: Config, data: string, epos: nat, i: nat, len: int)
    requires epos <= |data| && i == IndexOf(data[epos..], c.delimStart)
    requires len == IndexOf(data[epos + i + |c.delimStart|..], c.delimEnd)
    ensures var inner := epos + i + |c.delimStart|;
            CutFirst(c, data[epos..])
            == if len >= 0 && |c.delimStart| + len > 0
               then Hole(data[epos..epos + i], data[inner..inner + len], data[inner + len + |c.delimEnd|..])
               else Unclosed(data[epos..epos + i], if len >= 0 then data[inner + len..] else "")
  {
    hide *;
    var inner := epos + i + |c.delimStart|;
    Slices(data, epos, i);
    Slices(data, epos, i + |c.delimStart|);
    CutAt(c, data[epos..], i, data[inner..], len);
    if len >= 0 {
      Slices(data, inner, len);
      Slices(data, inner, len + |c.delimEnd|);
    }
  }

  /** One step of the loop at a placeholder. */
  lemma {:induction false} HoleStep(c: Config, data: string, epos: nat, spos: nat, end: nat)
    requires epos <= |data| && spos == Find(data, c.delimStart, epos)
    requires end == Find(data, c.delimEnd, spos + |c.delimStart|) && end > spos
    ensures var name, next := data[spos + |c.delimStart|..end], end + |c.delimEnd|;
            && Expand(c, data[epos..]) == data[epos..spos] + Substitution(c, name) + Expand(c, data[next..])
            && Problems(c, |data|, data[epos..]) == Reported(c, spos, name) + Problems(c, |data|, data[next..])
  {
    hide CutFirst;
    FindIsCut(c, data, epos, spos - epos, IndexOf(data[spos + |c.delimStart|..], c.delimEnd));
  }

  /** The last step, at a placeholder that is not closed. */
  lemma {:induction false} UnclosedStep(c: Config, data: string, epos: nat, spos: nat, end: int)
    requires epos <= |data| && spos == Find(data, c.delimStart, epos)
    requires end == Find(data, c.delimEnd, spos + |c.delimStart|) && end <= spos
    ensures Expand(c, data[epos..]) == data[epos..spos] + if end >= 0 then data[end..] else ""
    ensures Problems(c, |data|, data[epos..])
            == [Report(spos, MissingClose(data[spos..if spos + 5 <= |data| then spos + 5 else |data|]))]
  {
    hide CutFirst;
    FindIsCut(c, data, epos, spos - epos, IndexOf(data[spos + |c.delimStart|..], c.delimEnd));
    ShownAt(data, epos, spos);
  }

  lemma {:induction false} ShownAt(data: string, epos: nat, spos: nat)
    requires epos <= spos <= |data|
    ensures Shown(data[epos..][spos - epos..]) == data[spos..if spos + 5 <= |data| then spos + 5 else |data|]
  {
    Slices(data, epos, spos - epos);
  }

  // ----- Positions -----

  /** The start of a line, counted from 1. */
  function LineStart(data: string, line: nat): int {
    if line <= 1 then 0
    else
      var i := IndexOf(data, "\n");
      if i < 0 then -1
      else if LineStart(data[i + 1..], line - 1) < 0 then -1
      else i + 1 + LineStart(data[i + 1..], line - 1)
  }

  /** Positions after the first line, in terms of the text that follows it. */
  lemma {:induction false} NextLine(data: string, pos: nat, i: nat)
    requires i < pos <= |data| && data[i] == '\n' && '\n' !in data[..i]
    ensures LineOf(data, pos) == 1 + LineOf(data[i + 1..], pos - i - 1)
    ensures ColumnOf(data, pos) == ColumnOf(data[i + 1..], pos - i - 1)
  {
    var rest := data[i + 1..];
    var head := data[..i] + ['\n'];
    var tail := rest[..pos - i - 1];
    assert data[..pos] == head + tail;
    CountAppend(head, tail, '\n');
    CountAppend(data[..i], ['\n'], '\n');
    CountZero(data[..i], '\n');
    assert ['\n'][1..] == [];
    CountZero(tail, '\n');
    var r, q := LastIndexOf(data[..pos], '\n'), LastIndexOf(tail, '\n');
    assert data[..pos][i] == '\n';
    assert forall k :: 0 <= k < |tail| ==> data[..pos][i + 1 + k] == tail[k];
    assert r == i + 1 + q;
  }

  /** The line and column lead back to the position, and the position is on that line. */
  ghost predicate Locates(data: string, pos: nat, line: nat, column: int)
    requires pos <= |data|
  {
    var start := LineStart(data, line);
    0 <= start <= pos && start + column - 1 == pos && '\n' !in data[start..pos]
  }

  lemma {:induction false} LocatesNextLine(data: string, pos: nat, i: nat, line: nat, column: int)
    requires i < pos <= |data| && i == IndexOf(data, "\n") && line >= 1
    requires Locates(data[i + 1..], pos - i - 1, line, column)
    ensures Locates(data, pos, line + 1, column)
  {
    var rest := data[i + 1..];
    var start := LineStart(rest, line);
    assert LineStart(data, line + 1) == i + 1 + start;
    assert rest[start..pos - i - 1] == data[i + 1 + start..pos];
  }

  lemma {:induction false} LocatesFirstLine(data: string, pos: nat)
    requires pos <= |data| && '\n' !in data[..pos]
    ensures Locates(data, pos, LineOf(data, pos), ColumnOf(data, pos))
  {
    CountZero(data[..pos], '\n');
    assert data[0..pos] == data[..pos];
  }

  lemma {:induction false} NoNewlineBefore(data: string, pos: nat)
    requires pos <= |data| && (IndexOf(data, "\n") < 0 || pos <= IndexOf(data, "\n"))
    ensures '\n' !in data[..pos]
  {
    var i := IndexOf(data, "\n");
    IndexOfChar(data, '\n');
    assert i >= 0 ==> data[..pos] == data[..i][..pos];
  }

  /** The reported line and column lead back to the position, and stay on that line. */
  lemma {:induction false} PositionRoundTrip(data: string, pos: nat)
    requires pos <= |data|
    ensures Locates(data, pos, LineOf(data, pos), ColumnOf(data, pos))
    decreases |data|
  {
    hide Locates, LineStart, ColumnOf, IndexOf, Count;
    var i := IndexOf(data, "\n");
    if 0 <= i < pos {
      IndexOfChar(data, '\n');
      NextLine(data, pos, i);
      PositionRoundTrip(data[i + 1..], pos - i - 1);
      LocatesNextLine(data, pos, i, LineOf(data[i + 1..], pos - i - 1), ColumnOf(data, pos));
    } else {
      NoNewlineBefore(data, pos);
      LocatesFirstLine(data, pos);
    }
  }

  // ----- Templates -----

  /** A placeholder with the literal text before it. */
  datatype Part = Part(literal: string, name: string)

  function Render(c: Config, parts: seq<Part>, tail: string): string {
    if parts == [] then tail
    else parts[0].literal + c.delimStart + parts[0].name + c.delimEnd + Render(c, parts[1..], tail)
  }

  function Meaning(c: Config, parts: seq<Part>): string {
    if parts == [] then ""
    else parts[0].literal + Substitution(c, parts[0].name) + Meaning(c, parts[1..])
  }

  /** The delimiter after `text` is the first one: it does not begin earlier. */
  predicate Closed(text: string, delim: string) {
    IndexOf(text + delim, delim) == |text|
  }

  /** Every literal ends at its placeholder, and every name at its closing delimiter. */
  predicate CleanParts(c: Config, parts: seq<Part>) {
    forall i :: 0 <= i < |parts| ==> Closed(parts[i].literal, c.delimStart) && Closed(parts[i].name, c.delimEnd)
  }

  lemma {:induction false} FirstDelimiter(text: string, delim: string, rest: string)
    requires Closed(text, delim)
    ensures IndexOf(text + delim + rest, delim) == |text|
  {
    var s := text + delim + rest;
    assert s[|text|..|text| + |delim|] == delim;
    assert OccursAt(s, delim, |text|);
    IndexOfFirst(s, delim);
    IndexOfFirst(text + delim, delim);
    var r := IndexOf(s, delim);
    assert (text + delim)[r..r + |delim|] == s[r..r + |delim|];
    assert OccursAt(text + delim, delim, r);
  }

  lemma {:induction false} SliceConcat(a: string, b: string, x: string)
    ensures (a + b + x)[..|a|] == a && (a + b + x)[|a| + |b|..] == x
  {
  }

  /** One placeholder at the front of a text is what the first cut finds. */
  lemma {:induction false} CutRendered(c: Config, part: Part, rest: string)
    requires c.delimStart != "" && Closed(part.literal, c.delimStart) && Closed(part.name, c.delimEnd)
    ensures CutFirst(c, part.literal + c.delimStart + part.name + c.delimEnd + rest)
            == Hole(part.literal, part.name, rest)
  {
    hide *;
    var after := part.name + c.delimEnd + rest;
    var text := part.literal + c.delimStart + after;
    assert part.literal + c.delimStart + part.name + c.delimEnd + rest == text;
    FirstDelimiter(part.literal, c.delimStart, after);
    SliceConcat(part.literal, c.delimStart, after);
    FirstDelimiter(part.name, c.delimEnd, rest);
    SliceConcat(part.name, c.delimEnd, rest);
    CutAt(c, text, |part.literal|, after, |part.name|);
  }

  lemma {:induction false} ExpandPart(c: Config, part: Part, rest: string)
    requires c.delimStart != "" && Closed(part.literal, c.delimStart) && Closed(part.name, c.delimEnd)
    ensures Expand(c, part.literal + c.delimStart + part.name + c.delimEnd + rest)
            == part.literal + Substitution(c, part.name) + Expand(c, rest)
  {
    CutRendered(c, part, rest);
  }

  /** Placeholders are replaced one after the other; what follows them is expanded on its own. */
  lemma {:induction false} ExpandParts(c: Config, parts: seq<Part>, tail: string)
    requires c.delimStart != "" && CleanParts(c, parts)
    ensures Expand(c, Render(c, parts, tail)) == Meaning(c, parts) + Expand(c, tail)
    decreases parts
  {
    var last := Expand(c, tail);
    if parts == [] {
      assert "" + last == last;
    } else {
      var rest := Render(c, parts[1..], tail);
      ExpandPart(c, parts[0], rest);
      ExpandParts(c, parts[1..], tail);
      Regroup(parts[0].literal + Substitution(c, parts[0].name), Meaning(c, parts[1..]), last);
    }
  }

  predicate AllDefined(c: Config, parts: seq<Part>) {
    forall i :: 0 <= i < |parts| ==> parts[i].name in c.variables
  }

  lemma {:induction false} ProblemsOfPart(c: Config, total: nat, part: Part, rest: string)
    requires c.delimStart != "" && Closed(part.literal, c.delimStart) && Closed(part.name, c.delimEnd)
    ensures var text := part.literal + c.delimStart + part.name + c.delimEnd + rest;
            Problems(c, total, text)
            == Reported(c, total - |text| + |part.literal|, part.name) + Problems(c, total, rest)
  {
    CutRendered(c, part, rest);
  }

  lemma {:induction false} AllDefinedStep(c: Config, parts: seq<Part>)
    requires parts != []
    ensures AllDefined(c, parts) <==> parts[0].name in c.variables && AllDefined(c, parts[1..])
  {
    assert parts == [parts[0]] + parts[1..];
  }

  /** Problems come from undefined names, and then from what follows. */
  lemma {:induction false} ProblemsOfParts(c: Config, total: nat, parts: seq<Part>, tail: string)
    requires c.delimStart != "" && CleanParts(c, parts)
    ensures var all, last := Problems(c, total, Render(c, parts, tail)), Problems(c, total, tail);
            && (all == [] <==> AllDefined(c, parts) && last == [])
            && (last != [] ==> Last(all) == Last(last))
    decreases parts
  {
    if parts == [] {
    } else {
      ProblemsOfPart(c, total, parts[0], Render(c, parts[1..], tail));
      ProblemsOfParts(c, total, parts[1..], tail);
      AllDefinedStep(c, parts);
    }
  }

  /**
   A template of literals and placeholders expands to the literals and the values, concatenated;
   values are never expanded again. No problem is reported exactly when every name has a value.
   */
  lemma {:induction false} ExpandTemplate(c: Config, parts: seq<Part>, tail: string)
    requires c.delimStart != "" && CleanParts(c, parts) && !Contains(tail, c.delimStart)
    ensures var data := Render(c, parts, tail);
            && Expand(c, data) == Meaning(c, parts) + tail
            && (Problems(c, |data|, data) == [] <==> AllDefined(c, parts))
  {
    ExpandParts(c, parts, tail);
    ProblemsOfParts(c, |Render(c, parts, tail)|, parts, tail);
  }

  lemma {:induction false} CutUnclosed(c: Config, literal: string, rest: string)
    requires Closed(literal, c.delimStart) && !Contains(rest, c.delimEnd)
    ensures CutFirst(c, literal + c.delimStart + rest) == Unclosed(literal, "")
  {
    FirstDelimiter(literal, c.delimStart, rest);
    var text := literal + c.delimStart + rest;
    assert text[|literal| + |c.delimStart|..] == rest;
  }

  /** A placeholder that is never closed: the result is the expansion of the text before it. */
  lemma {:induction false} ExpandUnclosed(c: Config, parts: seq<Part>, literal: string, rest: string)
    requires c.delimStart != "" && CleanParts(c, parts)
    requires Closed(literal, c.delimStart) && !Contains(rest, c.delimEnd)
    ensures var data := Render(c, parts, literal + c.delimStart + rest);
            && Expand(c, data) == Meaning(c, parts) + literal
            && Last(Problems(c, |data|, data)).Some?
            && Last(Problems(c, |data|, data)).value.problem.MissingClose?
  {
    var tail := literal + c.delimStart + rest;
    CutUnclosed(c, literal, rest);
    assert literal + "" == literal;
    ExpandParts(c, parts, tail);
    ProblemsOfParts(c, |Render(c, parts, tail)|, parts, tail);
  }

  // ----- Every text is such a template -----

  /** What a text looks like to the expander. */
  datatype Template = Complete(parts: seq<Part>, tail: string) | Broken(parts: seq<Part>, literal: string, rest: string)

  ghost predicate IsTemplate(c: Config, text: string, t: Template) {
    && CleanParts(c, t.parts)
    && match t
       case Complete(parts, tail) => text == Render(c, parts, tail) && !Contains(tail, c.delimStart)
       case Broken(parts, literal, rest) =>
         && text == Render(c, parts, literal + c.delimStart + rest)
         && Closed(literal, c.delimStart) && !Contains(rest, c.delimEnd)
  }

  lemma {:induction false} ClosedAtFirst(s: string, delim: string)
    requires Contains(s, delim)
    ensures Closed(s[..IndexOf(s, delim)], delim)
    ensures s == s[..IndexOf(s, delim)] + delim + s[IndexOf(s, delim) + |delim|..]
  {
    var i := IndexOf(s, delim);
    var t := s[..i] + delim;
    IndexOfFirst(s, delim);
    IndexOfFirst(t, delim);
    assert s[i..i + |delim|] == delim;
    assert s == t + s[i + |delim|..];
    assert t[i..i + |delim|] == delim;
    assert OccursAt(t, delim, i);
    var r := IndexOf(t, delim);
    assert t[r..r + |delim|] == s[r..r + |delim|];
    assert OccursAt(s, delim, r);
  }

  lemma {:induction false} PrependPart(c: Config, part: Part, rest: string, u: Template)
    requires Closed(part.literal, c.delimStart) && Closed(part.name, c.delimEnd) && IsTemplate(c, rest, u)
    ensures IsTemplate(c, part.literal + c.delimStart + part.name + c.delimEnd + rest, u.(parts := [part] + u.parts))
  {
    assert ([part] + u.parts)[1..] == u.parts;
  }

  /** The two cases above cover every text. */
  lemma {:induction false} EveryTextIsTemplate(c: Config, text: string) returns (t: Template)
    requires c.delimStart != ""
    ensures IsTemplate(c, text, t)
    decreases |text|
  {
    if !Contains(text, c.delimStart) {
      return Complete([], text);
    }
    ClosedAtFirst(text, c.delimStart);
    var i := IndexOf(text, c.delimStart);
    var literal, after := text[..i], text[i + |c.delimStart|..];
    assert |after| < |text|;
    if !Contains(after, c.delimEnd) {
      return Broken([], literal, after);
    }
    hide *;
    ClosedAtFirst(after, c.delimEnd);
    var j := IndexOf(after, c.delimEnd);
    var part, rest := Part(literal, after[..j]), after[j + |c.delimEnd|..];
    var u := EveryTextIsTemplate(c, rest);
    PrependPart(c, part, rest, u);
    Regroup(literal + c.delimStart, part.name + c.delimEnd, rest);
    Regroup(literal + c.delimStart, part.name, c.delimEnd);
    t := u.(parts := [part] + u.parts);
  }

  // ----- The default delimiters -----

  lemma {:induction false} OccursTwo(s: string, j: int)
    ensures OccursAt(s, "${", j) <==> 0 <= j && j + 2 <= |s| && s[j] == '$' && s[j + 1] == '{'
  {
    if 0 <= j && j + 2 <= |s| {
      assert s[j..j + 2] == [s[j], s[j + 1]];
    }
  }

  lemma {:induction false} ClosedStart(literal: string)
    ensures Closed(literal, "${") <==> !Contains(literal, "${")
  {
    var s := literal + "${";
    OccursTwo(s, |literal|);
    IndexOfFirst(s, "${");
    IndexOfFirst(literal, "${");
    var r, q := IndexOf(s, "${"), IndexOf(literal, "${");
    OccursTwo(s, r);
    OccursTwo(literal, r);
    OccursTwo(literal, q);
    OccursTwo(s, q);
  }

  lemma {:induction false} ClosedEnd(name: string)
    ensures Closed(name, "}") <==> '}' !in name
  {
    var t := name + ['}'];
    IndexOfChar(t, '}');
    assert t[|name|] == '}' && t[..|name|] == name;
  }

  /** With `${` and `}` a literal only has to be free of `${`, and a name free of `}`. */
  lemma {:induction false} DefaultDelimiters(literal: string, name: string)
    ensures Closed(literal, "${") <==> !Contains(literal, "${")
    ensures Closed(name, "}") <==> '}' !in name
  {
    ClosedStart(literal);
    ClosedEnd(name);
  }

  // ----- What a placeholder turns into -----

  /** A directory as a prefix of the paths below it. */
  function WithSlash(b: string): string
    requires b != ""
  {
    if b[|b| - 1] == '/' then b else b + "/"
  }

  /** A path below the base directory is written without it. */
  lemma {:induction false} PathBelowBase(c: Config, b: string, rest: string)
    requires c.pathRelativeTo == Some(b) && b != ""
    ensures PathText(c, WithSlash(b) + rest) == "\"" + rest + "\""
  {
    assert (WithSlash(b) + rest)[|WithSlash(b)|..] == rest;
  }

  /** Any other path is written in full, after the prefix for absolute paths. */
  lemma {:induction false} PathElsewhere(c: Config, path: string)
    requires c.pathRelativeTo.None? || c.pathRelativeTo.value == "" || !(WithSlash(c.pathRelativeTo.value) <= path)
    ensures PathText(c, path) == "\"" + c.pathAbsPrefix + path + "\""
  {
    assert "\"" + (c.pathAbsPrefix + path) == "\"" + c.pathAbsPrefix + path;
  }

  /** A list of paths is written path by path, in order. */
  lemma {:induction false} PathTextsInOrder(c: Config, paths: seq<string>)
    ensures |PathTexts(c, paths)| == |paths|
    ensures forall i :: 0 <= i < |paths| ==> PathTexts(c, paths)[i] == PathText(c, paths[i])
  {
    if paths == [] {
    } else {
      PathTextsInOrder(c, paths[1..]);
    }
  }

  lemma {:induction false} ClosedEmpty(delim: string)
    ensures Closed("", delim)
  {
    assert OccursAt("" + delim, delim, 0);
    IndexOfFirst("" + delim, delim);
  }

  lemma {:induction false} ExpandAlone(c: Config, name: string)
    requires c.delimStart != "" && Closed(name, c.delimEnd)
    ensures Expand(c, c.delimStart + name + c.delimEnd) == Substitution(c, name)
  {
    hide *;
    ClosedEmpty(c.delimStart);
    ExpandPart(c, Part("", name), "");
    NothingToExpand(c);
    EmptyEnds(c.delimStart);
    EmptyEnds(c.delimStart + name + c.delimEnd);
    EmptyEnds(Substitution(c, name));
  }

  lemma {:induction false} EmptyEnds(s: string)
    ensures "" + s == s && s + "" == s
  {
  }

  lemma {:induction false} NothingToExpand(c: Config)
    requires c.delimStart != ""
    ensures Expand(c, "") == ""
  {
  }

  /**
   A placeholder alone: a plain value gives itself, an unknown name nothing, and a list the texts of
   its paths, joined by the list delimiter.
   */
  lemma {:induction false} PlaceholderMeaning(c: Config, name: string, texts: seq<string>)
    requires c.delimStart != "" && Closed(name, c.delimEnd)
    ensures var r := Expand(c, c.delimStart + name + c.delimEnd);
            && (name !in c.variables ==> r == "")
            && (name in c.variables && c.variables[name].Plain? ==> r == c.variables[name].text)
            && (name in c.variables && c.variables[name].Paths? && |texts| == |c.variables[name].paths|
                && (forall i :: 0 <= i < |texts| ==> texts[i] == PathText(c, c.variables[name].paths[i])) ==>
                  r == Join(texts, c.pathListDelim))
  {
    ExpandAlone(c, name);
    if name in c.variables && c.variables[name].Paths? {
      var paths := c.variables[name].paths;
      PathTextsInOrder(c, paths);
      if |texts| == |paths| && (forall i :: 0 <= i < |texts| ==> texts[i] == PathText(c, paths[i])) {
        assert PathTexts(c, paths) == texts;
      }
    }
    hide PathText, Expand, Join, Closed;
  }

  lemma {:induction false} ExamplePaths(c: Config)
    requires c.pathRelativeTo == Some("path/to") && c.pathAbsPrefix == "//"
    ensures PathText(c, "path/to/a.ext") == "\"a.ext\""
    ensures PathText(c, "another/c.ext") == "\"//another/c.ext\""
  {
    PathBelowBase(c, "path/to", "a.ext");
    assert WithSlash("path/to") == "path/to/" && "path/to/" + "a.ext" == "path/to/a.ext";
    assert "another/c.ext"[0] != "path/to/"[0];
    PathElsewhere(c, "another/c.ext");
  }

  /** A file below the base directory and one elsewhere. */
  lemma {:induction false} PathExample(c: Config)
    requires c.pathRelativeTo == Some("path/to") && c.pathAbsPrefix == "//" && c.pathListDelim == ","
    requires c.delimStart == "${" && c.delimEnd == "}"
    requires "paths" in c.variables && c.variables["paths"] == Paths(["path/to/a.ext", "another/c.ext"])
    ensures Expand(c, "${" + "paths" + "}") == "\"a.ext\"" + "," + "\"//another/c.ext\""
  {
    hide *;
    ClosedEnd("paths");
    ExamplePaths(c);
    var texts := ["\"a.ext\"", "\"//another/c.ext\""];
    PlaceholderMeaning(c, "paths", texts);
    JoinTwo(texts[0], texts[1], ",");
  }

  lemma {:induction false} JoinTwo(x: string, y: string, delim: string)
    ensures Join([x, y], delim) == x + delim + y
  {
    JoinFirst(x, [y], delim);
    assert [x] + [y] == [x, y];
  }
}
