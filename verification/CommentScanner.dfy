/**
 The backward comment scanner of tools/cef_parser.py (get_prev_line, get_comment): starting from
 the declaration it walks up line by line, skips attribute comments and collects `///` lines.
 */
module CommentScanner {
  import opened PythonStrings
  import opened Sequences

  // ----- Lines -----

  /** The end of a Python slice `[0:end]`; a negative end counts from the back. */
  function SliceEnd(length: nat, end: int): nat {
    if end >= 0 then (if end <= length then end else length)
    else if length + end >= 0 then length + end
    else 0
  }

  /** `body.rfind('\n', 0, end)` */
  function RFindNewline(body: string, end: int): (r: int)
    ensures -1 <= r < SliceEnd(|body|, end)
  {
    LastIndexOf(body[..SliceEnd(|body|, end)], '\n')
  }

  datatype PrevLine = PrevLine(start: nat, line: string)

  /** `get_prev_line` */
  function GetPrevLine(body: string, pos: nat): PrevLine {
    var end := RFindNewline(body, pos);
    var start := RFindNewline(body, end) + 1;
    PrevLine(start, if start <= SliceEnd(|body|, end) then body[start..SliceEnd(|body|, end)] else "")
  }

  /** The last line of a text, and the lines before it. */
  lemma {:induction false} SplitAtLast(s: string)
    ensures var i := LastIndexOf(s, '\n');
            Split(s, '\n') == if i < 0 then [s] else Split(s[..i], '\n') + [s[i + 1..]]
  {
    var i := LastIndexOf(s, '\n');
    if i < 0 {
      SplitWhole(s, '\n');
    } else {
      assert s == s[..i] + ['\n'] + s[i + 1..];
      SplitAcross(s[..i], s[i + 1..], '\n');
      SplitWhole(s[i + 1..], '\n');
    }
  }

  // ----- Scanning lines from the bottom up -----

  predicate StartsWith(s: string, prefix: string) {
    prefix <= s
  }

  predicate EndsWith(s: string, suffix: string) {
    |suffix| <= |s| && s[|s| - |suffix|..] == suffix
  }

  lemma {:induction false} AffixMeaning(s: string, affix: string)
    ensures StartsWith(s, affix) <==> exists rest :: s == affix + rest
    ensures EndsWith(s, affix) <==> exists rest :: s == rest + affix
  {
    if StartsWith(s, affix) {
      assert s == affix + s[|affix|..];
    }
    if EndsWith(s, affix) {
      assert s == s[..|s| - |affix|] + affix;
    }
  }

  /** What one line does to the scan: end it, pass (setting the block flag), or add a comment line. */
  datatype Action = Stop | Pass(inBlock: bool) | Take(text: string)

  /** The branches of `get_comment` on a stripped line. */
  function Step(line: string, inBlock: bool): Action {
    if |line| == 0 then Stop
    else if StartsWith(line, "/*") && EndsWith(line, "*/") then Pass(inBlock)
    else if inBlock && StartsWith(line, "/*") then Pass(false)
    else if !inBlock && EndsWith(line, "*/") then Pass(true)
    else if inBlock then Pass(true)
    else if StartsWith(line, "///") then Take(line[3..])
    else Stop
  }

  /** The loop of `get_comment` over the lines above, last line first; the result in source order. */
  function Scan(lines: seq<string>, inBlock: bool): seq<string> {
    if lines == [] then [] else
      var above := lines[..|lines| - 1];
      match Step(Strip(lines[|lines| - 1]), inBlock)
      case Stop => []
      case Pass(b) => Scan(above, b)
      case Take(t) => Scan(above, inBlock) + [t]
  }

  lemma {:induction false} ScanUnfold(above: seq<string>, line: string, inBlock: bool)
    ensures Scan(above + [line], inBlock) == match Step(Strip(line), inBlock)
                                             case Stop => []
                                             case Pass(b) => Scan(above, b)
                                             case Take(t) => Scan(above, inBlock) + [t]
  {
    assert (above + [line])[..|above|] == above;
  }

  /**
   The lines the scanner sees from a position: those above its line. When no newline precedes the
   position, `rfind` answers -1, which Python takes as one from the end of the text: then the
   lines of the whole text without its last character are scanned.
   */
  function LinesAbove(body: string, pos: nat): seq<string> {
    var end := RFindNewline(body, pos);
    Split(body[..SliceEnd(|body|, end)], '\n')
  }

  function Comment(body: string, name: string): seq<string> {
    var pos := IndexOf(body, name);
    if pos <= 0 then [] else Scan(LinesAbove(body, pos), false)
  }

  predicate OnFirstLine(body: string, pos: nat)
    requires pos <= |body|
  {
    '\n' !in body[..pos]
  }

  /** What one step of the loop reads, and what is left to read. */
  lemma {:induction false} PrevLineIsLast(body: string, pos: nat)
    requires 0 < pos <= |body|
    ensures var data := GetPrevLine(body, pos);
            && data.start <= |body|
            && (data.start > 0 ==> body[data.start - 1] == '\n' && !OnFirstLine(body, data.start))
            && LinesAbove(body, pos)
               == (if data.start == 0 then [] else LinesAbove(body, data.start)) + [data.line]
            && (!OnFirstLine(body, pos) ==> data.start < pos)
  {
    hide Split, LastIndexOf;
    var end := RFindNewline(body, pos);
    var text := body[..SliceEnd(|body|, end)];
    var data := GetPrevLine(body, pos);
    SplitAtLast(text);
    if data.start > 0 {
      var upTo := body[..data.start];
      assert upTo[data.start - 1] == '\n';
      assert LastIndexOf(upTo, '\n') == data.start - 1;
      assert text[..data.start - 1] == body[..data.start - 1];
    }
  }

  function Reversed(s: seq<string>): (r: seq<string>)
    ensures |r| == |s|
  {
    if s == [] then [] else Reversed(s[1..]) + [s[0]]
  }

  lemma {:induction false} ReversedAppend(s: seq<string>, x: string)
    ensures Reversed(s + [x]) == [x] + Reversed(s)
  {
    if s == [] {
      assert [x][1..] == [];
    } else {
      assert (s + [x])[1..] == s[1..] + [x];
      ReversedAppend(s[1..], x);
    }
  }

  /** The lines still to be read when the scan stands at `pos`. */
  function Unread(body: string, pos: int): seq<string>
    requires pos <= |body|
  {
    if pos > 0 then LinesAbove(body, pos) else []
  }

  lemma {:induction false} TakeStep(a: seq<string>, t: string, result: seq<string>)
    ensures a + [t] + Reversed(result) == a + Reversed(result + [t])
  {
    ReversedAppend(result, t);
  }

  /** `get_comment`; it terminates on every text, since only the first step can move forward. */
  method GetComment(body: string, name: string) returns (result: seq<string>)
    ensures result == Comment(body, name)
  {
    result := [];
    var pos := IndexOf(body, name);
    var inBlock := false;
    assert Scan(Unread(body, pos), false) == Comment(body, name) && Reversed(result) == [];
    assert forall b :: Scan([], b) == [];
    hide *;
    assert Scan(Unread(body, pos), false) + [] == Comment(body, name);
    while pos > 0
      invariant -1 <= pos <= |body|
      invariant Scan(Unread(body, pos), inBlock) + Reversed(result) == Comment(body, name)
      decreases pos > 0 && OnFirstLine(body, pos), pos
    {
      var data := GetPrevLine(body, pos);
      PrevLineIsLast(body, pos);
      ScanUnfold(Unread(body, data.start), data.line, inBlock);
      pos := data.start;
      match Step(Strip(data.line), inBlock) {
        case Stop =>
          break;
        case Pass(b) =>
          inBlock := b;
        case Take(text) =>
          TakeStep(Scan(Unread(body, pos), inBlock), text, result);
          result := result + [text];
      }
    }
    result := Reversed(result);
  }

  // ----- The comment directly above a declaration -----

  /** The kind of a line, whatever the state of the scan. */
  datatype Kind = Blank | Single | Open | Close | Doc(text: string) | Other

  function KindOf(line: string): Kind {
    var s := Strip(line);
    if s == "" then Blank
    else if StartsWith(s, "/*") && EndsWith(s, "*/") then Single
    else if StartsWith(s, "/*") then Open
    else if EndsWith(s, "*/") then Close
    else if StartsWith(s, "///") then Doc(s[3..])
    else Other
  }

  function Kinds(lines: seq<string>): seq<Kind> {
    Map(KindOf, lines)
  }

  /** An item of a comment: a `///` line, a one-line attribute comment, or a multi-line one. */
  datatype Item = DocItem(text: string) | OneLineItem | BlockItem(middle: seq<Kind>)

  /** Inside a block comment there is no blank line and no second start. */
  predicate Inner(kinds: seq<Kind>) {
    forall k :: k in kinds ==> k != Blank && k != Open
  }

  function ItemKinds(item: Item): seq<Kind> {
    match item
    case DocItem(text) => [Doc(text)]
    case OneLineItem => [Single]
    case BlockItem(middle) => [Open] + middle + [Close]
  }

  function RunKinds(items: seq<Item>): seq<Kind> {
    if items == [] then [] else RunKinds(items[..|items| - 1]) + ItemKinds(items[|items| - 1])
  }

  /** The texts of the `///` lines of a run, in source order. */
  function RunDocs(items: seq<Item>): seq<string> {
    if items == [] then [] else
      RunDocs(items[..|items| - 1])
      + (if items[|items| - 1].DocItem? then [items[|items| - 1].text] else [])
  }

  /** The lines above cannot belong to the comment: none, or a line that ends it. */
  predicate Stops(kinds: seq<Kind>) {
    kinds != [] ==>
      match kinds[|kinds| - 1]
      case Blank => true
      case Open => true
      case Other => true
      case Close => StopsInBlock(kinds[..|kinds| - 1])
      case _ => false
  }

  /** Going up from the end of a block comment, its start is not found before a blank line or the top. */
  predicate StopsInBlock(kinds: seq<Kind>) {
    kinds != [] ==>
      match kinds[|kinds| - 1]
      case Blank => true
      case Open => false
      case _ => StopsInBlock(kinds[..|kinds| - 1])
  }

  predicate ProperItem(item: Item) {
    item.BlockItem? ==> Inner(item.middle)
  }

  predicate ProperItems(items: seq<Item>) {
    forall i :: 0 <= i < |items| ==> ProperItem(items[i])
  }

  /** `kinds` ends in the maximal run of comment items. */
  predicate IsRun(kinds: seq<Kind>, before: seq<Kind>, items: seq<Item>) {
    kinds == before + RunKinds(items) && ProperItems(items) && Stops(before)
  }

  /** The scan as a function of the kinds alone. */
  function ScanKinds(kinds: seq<Kind>, inBlock: bool): seq<string> {
    if kinds == [] then [] else
      var above := kinds[..|kinds| - 1];
      match kinds[|kinds| - 1]
      case Blank => []
      case Single => ScanKinds(above, inBlock)
      case Open => if inBlock then ScanKinds(above, false) else []
      case Close => ScanKinds(above, true)
      case Doc(t) => if inBlock then ScanKinds(above, true) else ScanKinds(above, false) + [t]
      case Other => if inBlock then ScanKinds(above, true) else []
  }

  lemma {:induction false} StepOfKind(line: string, inBlock: bool)
    ensures Step(Strip(line), inBlock) == match KindOf(line)
                                          case Blank => Stop
                                          case Single => Pass(inBlock)
                                          case Open => if inBlock then Pass(false) else Stop
                                          case Close => Pass(true)
                                          case Doc(t) => if inBlock then Pass(true) else Take(t)
                                          case Other => if inBlock then Pass(true) else Stop
  {
    var s := Strip(line);
    assert StartsWith(s, "/*") ==> s[1] == '*';
    assert StartsWith(s, "///") ==> s[1] == '/';
  }

  lemma {:induction false} ScanIsScanKinds(lines: seq<string>, inBlock: bool)
    ensures Scan(lines, inBlock) == ScanKinds(Kinds(lines), inBlock)
  {
    if lines == [] {
    } else {
      var above, last := lines[..|lines| - 1], lines[|lines| - 1];
      assert Kinds(lines)[..|lines| - 1] == Kinds(above);
      StepOfKind(last, inBlock);
      ScanIsScanKinds(above, true);
      ScanIsScanKinds(above, false);
    }
  }

  lemma {:induction false} ScanStopped(kinds: seq<Kind>)
    ensures Stops(kinds) ==> ScanKinds(kinds, false) == []
    ensures StopsInBlock(kinds) ==> ScanKinds(kinds, true) == []
  {
    if kinds == [] {
    } else {
      ScanStopped(kinds[..|kinds| - 1]);
    }
  }

  lemma {:induction false} ScanMiddle(kinds: seq<Kind>, middle: seq<Kind>)
    requires Inner(middle)
    ensures ScanKinds(kinds + middle, true) == ScanKinds(kinds, true)
  {
    if middle == [] {
      assert kinds + middle == kinds;
    } else {
      var init := middle[..|middle| - 1];
      assert middle[|middle| - 1] in middle && forall k :: k in init ==> k in middle;
      assert (kinds + middle)[..|kinds + middle| - 1] == kinds + init;
      ScanMiddle(kinds, init);
    }
  }

  lemma {:induction false} ScanItem(kinds: seq<Kind>, item: Item)
    requires item.BlockItem? ==> Inner(item.middle)
    ensures ScanKinds(kinds + ItemKinds(item), false)
            == ScanKinds(kinds, false) + if item.DocItem? then [item.text] else []
  {
    var all := kinds + ItemKinds(item);
    match item {
      case DocItem(text) =>
        assert all[..|all| - 1] == kinds;
      case OneLineItem =>
        assert all[..|all| - 1] == kinds;
      case BlockItem(middle) =>
        var started := kinds + [Open];
        assert all[..|all| - 1] == started + middle;
        ScanMiddle(started, middle);
        assert started[..|kinds|] == kinds;
    }
  }

  /** The scanner returns exactly the `///` texts of the run, in source order. */
  lemma {:induction false} ScanReturnsRun(kinds: seq<Kind>, before: seq<Kind>, items: seq<Item>)
    requires IsRun(kinds, before, items)
    ensures ScanKinds(kinds, false) == RunDocs(items)
    decreases items
  {
    if items == [] {
      assert before + [] == before;
      ScanStopped(before);
    } else {
      var init, last := items[..|items| - 1], items[|items| - 1];
      var above := before + RunKinds(init);
      assert kinds == above + ItemKinds(last);
      ScanItem(above, last);
      ScanReturnsRun(above, before, init);
    }
  }

  // ----- Every text has such a run -----

  lemma {:induction false} RunKindsLast(items: seq<Item>, item: Item)
    ensures RunKinds(items + [item]) == RunKinds(items) + ItemKinds(item)
  {
    assert (items + [item])[..|items|] == items;
  }

  lemma {:induction false} RunLast(kinds: seq<Kind>, before: seq<Kind>, items: seq<Item>, item: Item)
    requires IsRun(kinds, before, items) && ProperItem(item)
    ensures IsRun(kinds + ItemKinds(item), before, items + [item])
  {
    hide RunKinds, ItemKinds, Stops, ProperItem;
    RunKindsLast(items, item);
    assert kinds + ItemKinds(item) == before + (RunKinds(items) + ItemKinds(item));
  }

  /** Find the start of a block comment whose end is just below `kinds`. */
  lemma {:induction false} FindBlock(kinds: seq<Kind>) returns (i: int)
    ensures -1 <= i < |kinds|
    ensures i < 0 ==> StopsInBlock(kinds)
    ensures i >= 0 ==> kinds[i] == Open && Inner(kinds[i + 1..])
  {
    if kinds == [] || kinds[|kinds| - 1] == Blank {
      i := -1;
    } else if kinds[|kinds| - 1] == Open {
      i := |kinds| - 1;
    } else {
      i := FindBlock(kinds[..|kinds| - 1]);
      assert i >= 0 ==> kinds[i + 1..] == kinds[..|kinds| - 1][i + 1..] + [kinds[|kinds| - 1]];
    }
  }

  /** Where the scan does not stop, the lines end in an item. */
  lemma {:induction false} LastItem(kinds: seq<Kind>) returns (rest: seq<Kind>, item: Item)
    requires !Stops(kinds)
    ensures kinds == rest + ItemKinds(item) && |rest| < |kinds| && ProperItem(item)
  {
    var above, last := kinds[..|kinds| - 1], kinds[|kinds| - 1];
    rest, item := above, OneLineItem;
    if last == Close {
      var i := FindBlock(above);
      rest, item := above[..i], BlockItem(above[i + 1..]);
      assert above == above[..i] + [Open] + above[i + 1..];
    } else if last.Doc? {
      item := DocItem(last.text);
    }
  }

  lemma {:induction false} EveryTextHasRun(kinds: seq<Kind>) returns (before: seq<Kind>, items: seq<Item>)
    ensures IsRun(kinds, before, items)
    decreases |kinds|
  {
    if Stops(kinds) {
      assert kinds + [] == kinds;
      return kinds, [];
    }
    hide *;
    var rest, item := LastItem(kinds);
    before, items := EveryTextHasRun(rest);
    RunLast(rest, before, items, item);
    items := items + [item];
  }

  /**
   For a declaration with a line above it: the result is the `///` lines of the maximal comment
   run directly above, and there always is such a run.
   */
  lemma {:induction false} CommentDirectlyAbove(body: string, name: string)
    requires IndexOf(body, name) > 0 && '\n' in body[..IndexOf(body, name)]
    ensures var end := LastIndexOf(body[..IndexOf(body, name)], '\n');
            && 0 <= end < IndexOf(body, name)
            && (exists before, items :: IsRun(Kinds(Split(body[..end], '\n')), before, items))
            && (forall before, items :: IsRun(Kinds(Split(body[..end], '\n')), before, items) ==>
                                          Comment(body, name) == RunDocs(items))
  {
    var pos := IndexOf(body, name);
    var end := LastIndexOf(body[..pos], '\n');
    var lines := Split(body[..end], '\n');
    ScanIsScanKinds(lines, false);
    var before, items := EveryTextHasRun(Kinds(lines));
    forall before, items | IsRun(Kinds(lines), before, items)
      ensures Comment(body, name) == RunDocs(items)
    {
      ScanReturnsRun(Kinds(lines), before, items);
    }
  }

  lemma {:induction false} NoDocs(items: seq<Item>)
    ensures RunDocs(items) == [] <==> forall i :: 0 <= i < |items| ==> !items[i].DocItem?
  {
    if items == [] {
    } else {
      var init, last := items[..|items| - 1], items[|items| - 1];
      assert items == init + [last];
      NoDocs(init);
    }
  }

  lemma {:induction false} FirstLineSees(body: string, name: string)
    requires IndexOf(body, name) > 0 && '\n' !in body[..IndexOf(body, name)]
    ensures |body| > 0 && Comment(body, name) == Scan(Split(body[..|body| - 1], '\n'), false)
  {
  }

  /**
   With nothing above, the answer is empty exactly when the text minus its last character does not
   end in a comment run with a `///` line: the scanner starts from the end of the text instead.
   */
  lemma {:induction false} FirstLineComment(body: string, name: string, before: seq<Kind>, items: seq<Item>)
    requires IndexOf(body, name) > 0 && '\n' !in body[..IndexOf(body, name)]
    requires IsRun(Kinds(Split(body[..|body| - 1], '\n')), before, items)
    ensures Comment(body, name) == [] <==> forall i :: 0 <= i < |items| ==> !items[i].DocItem?
  {
    hide *;
    FirstLineSees(body, name);
    var lines := Split(body[..|body| - 1], '\n');
    ScanIsScanKinds(lines, false);
    ScanReturnsRun(Kinds(lines), before, items);
    NoDocs(items);
  }

  const FIRST_LINE_BODY: string := "A f\n///bug\n"

  lemma {:induction false} FirstLineLines()
    ensures IndexOf(FIRST_LINE_BODY, "f") == 2
    ensures LinesAbove(FIRST_LINE_BODY, 2) == ["A f", "///bug"]
  {
    hide Split, LastIndexOf, IndexOf;
    var body := FIRST_LINE_BODY;
    IndexOfChar(body, 'f');
    assert '\n' !in body[..2] && LastIndexOf(body[..2], '\n') == -1;
    assert LinesAbove(body, 2) == Split(body[..10], '\n');
    hide *;
    assert body[..10] == "A f" + ['\n'] + "///bug";
    SplitAcross("A f", "///bug", '\n');
    SplitWhole("A f", '\n');
    SplitWhole("///bug", '\n');
  }

  lemma {:induction false} FirstLineSteps()
    ensures Step(Strip("A f"), false) == Stop
    ensures Step(Strip("///bug"), false) == Take("bug")
  {
    StripTrimmed("///bug");
    StripTrimmed("A f");
    assert "///bug"[1] == '/' && "///bug"[3..] == "bug";
  }

  /** A declaration on the first line is given the comment at the end of the text. */
  lemma {:induction false} FirstLineTakesTrailingComment()
    ensures Comment(FIRST_LINE_BODY, "f") == ["bug"]
  {
    FirstLineLines();
    FirstLineSteps();
    assert ["A f", "///bug"] == ["A f"] + ["///bug"] && ["A f"] == [] + ["A f"];
    ScanUnfold(["A f"], "///bug", false);
    ScanUnfold([], "A f", false);
  }
}
