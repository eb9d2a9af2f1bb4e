/**
 Text normalisation before hashing (tools/cef_api_hash.py, _prepare_text): strip, collapse every
 run of white space to one space, drop white space after an opening parenthesis.
 */
module PreparedText {
  import opened PythonStrings
  import opened Sequences

  /** `re.sub(r'\s+', ' ', s)` */
  function Collapse(s: string): string
    decreases |s|
  {
    if s == "" then ""
    else if IsSpace(s[0]) then
      StripLeftSuffix(s[1..]);
      [' '] + Collapse(StripLeft(s[1..]))
    else [s[0]] + Collapse(s[1..])
  }

  /** `re.sub(r'\(\s+', '(', s)` */
  function Tighten(s: string): string
    decreases |s|
  {
    if s == "" then ""
    else if s[0] == '(' then
      StripLeftSuffix(s[1..]);
      ['('] + Tighten(StripLeft(s[1..]))
    else [s[0]] + Tighten(s[1..])
  }

  function PrepareText(text: string): string {
    Tighten(Collapse(Strip(text)))
  }

  // ----- The words of a text -----

  /** The first maximal run without white space at the start of a text. */
  function FirstWord(s: string): (w: string)
    ensures w <= s
  {
    if s == "" || IsSpace(s[0]) then "" else [s[0]] + FirstWord(s[1..])
  }

  /** `s.split()` */
  function Words(s: string): seq<string>
    decreases |s|
  {
    if s == "" then []
    else if IsSpace(s[0]) then Words(s[1..])
    else [FirstWord(s)] + Words(s[|FirstWord(s)|..])
  }

  lemma {:induction false} FirstWordAcross(a: string, rest: string)
    requires rest != "" && IsSpace(rest[0])
    ensures FirstWord(a + rest) == FirstWord(a)
  {
    if a == "" {
      assert a + rest == rest;
    } else {
      assert (a + rest)[1..] == a[1..] + rest;
      FirstWordAcross(a[1..], rest);
    }
  }

  lemma {:induction false} WordsOfSpace(w: string, b: string)
    requires AllSpace(w)
    ensures Words(w + b) == Words(b)
  {
    if w == "" {
      assert w + b == b;
    } else {
      assert (w + b)[1..] == w[1..] + b;
      WordsOfSpace(w[1..], b);
    }
  }

  /** White space separates words, however much of it there is. */
  lemma {:induction false} WordsAcross(a: string, w: string, b: string)
    requires AllSpace(w) && w != ""
    ensures Words(a + w + b) == Words(a) + Words(b)
    decreases |a|
  {
    var s := a + (w + b);
    assert a + w + b == s;
    if a == "" {
      assert s == w + b;
      WordsOfSpace(w, b);
    } else if IsSpace(a[0]) {
      assert s[1..] == a[1..] + w + b;
      WordsAcross(a[1..], w, b);
    } else {
      FirstWordAcross(a, w + b);
      var n := |FirstWord(a)|;
      assert s[n..] == a[n..] + w + b;
      WordsAcross(a[n..], w, b);
      assert [FirstWord(a)] + Words(a[n..]) + Words(b) == [FirstWord(a)] + (Words(a[n..]) + Words(b));
    }
  }

  lemma {:induction false} WordsStripLeft(s: string)
    ensures Words(StripLeft(s)) == Words(s)
  {
    if s != "" && IsSpace(s[0]) {
      WordsStripLeft(s[1..]);
    }
  }

  lemma {:induction false} WordsStripRight(s: string)
    ensures Words(StripRight(s)) == Words(s)
  {
    if s != "" && IsSpace(s[|s| - 1]) {
      var init, last := s[..|s| - 1], s[|s| - 1..];
      WordsStripRight(init);
      WordsAcross(init, last, "");
      assert s == init + last + "";
      assert Words(init) + [] == Words(init);
    }
  }

  // ----- Collapsing a trimmed text joins its words -----

  predicate NoSpace(w: string) {
    forall i :: 0 <= i < |w| ==> !IsSpace(w[i])
  }

  lemma {:induction false} CollapseWord(w: string, rest: string)
    requires NoSpace(w)
    ensures Collapse(w + rest) == w + Collapse(rest)
  {
    if w == "" {
      assert w + rest == rest && w + Collapse(rest) == Collapse(rest);
    } else {
      assert (w + rest)[1..] == w[1..] + rest;
      CollapseWord(w[1..], rest);
      assert [w[0]] + (w[1..] + Collapse(rest)) == w + Collapse(rest);
    }
  }

  lemma {:induction false} FirstWordSplit(s: string)
    ensures var w := FirstWord(s);
            && NoSpace(w) && s == w + s[|w|..]
            && (|w| < |s| ==> IsSpace(s[|w|]))
            && (w == "" <==> s == "" || IsSpace(s[0]))
  {
    if s != "" && !IsSpace(s[0]) {
      FirstWordSplit(s[1..]);
    }
  }

  lemma {:induction false} FirstWordOf(w: string, rest: string)
    requires NoSpace(w) && (rest != "" ==> IsSpace(rest[0]))
    ensures FirstWord(w + rest) == w
  {
    if w == "" {
      assert w + rest == rest;
    } else {
      assert (w + rest)[1..] == w[1..] + rest;
      FirstWordOf(w[1..], rest);
    }
  }

  lemma {:induction false} StripLeftTail(s: string)
    requires s != "" && !IsSpace(s[|s| - 1])
    ensures StripLeft(s) != "" && Trimmed(StripLeft(s)) && StripLeft(s)[|StripLeft(s)| - 1] == s[|s| - 1]
  {
    if IsSpace(s[0]) {
      StripLeftTail(s[1..]);
    }
  }

  /** A word, some white space, and the text after it. */
  lemma {:induction false} CollapseStep(w: string, c: char, after: string)
    requires NoSpace(w) && w != "" && IsSpace(c)
    ensures Collapse(w + ([c] + after)) == w + " " + Collapse(StripLeft(after))
    ensures Words(w + ([c] + after)) == [w] + Words(StripLeft(after))
  {
    var rest := [c] + after;
    assert rest[1..] == after;
    CollapseWord(w, rest);
    assert w + ([' '] + Collapse(StripLeft(after))) == w + " " + Collapse(StripLeft(after));
    FirstWordOf(w, rest);
    assert (w + rest)[|w|..] == rest;
    WordsStripLeft(after);
  }

  lemma {:induction false} WordsEmpty(s: string)
    requires Trimmed(s)
    ensures Words(s) == [] <==> s == ""
  {
  }

  lemma {:induction false} WordsOfWord(w: string)
    requires NoSpace(w) && w != ""
    ensures Words(w) == [w] && Collapse(w) == w
  {
    assert w + "" == w;
    FirstWordOf(w, "");
    CollapseWord(w, "");
  }

  lemma {:induction false} CollapseIsJoin(s: string)
    requires Trimmed(s)
    ensures Collapse(s) == Join(Words(s), " ")
    decreases |s|
  {
    if s == "" {
    } else {
      FirstWordSplit(s);
      var w := FirstWord(s);
      if |w| == |s| {
        assert w == s;
        WordsOfWord(w);
      } else {
        hide Words, Collapse, FirstWord, Join;
        var c, after := s[|w|], s[|w| + 1..];
        assert s == w + ([c] + after);
        CollapseStep(w, c, after);
        assert after != "" && after[|after| - 1] == s[|s| - 1];
        StripLeftTail(after);
        StripLeftSuffix(after);
        CollapseIsJoin(StripLeft(after));
        WordsEmpty(StripLeft(after));
        JoinFirst(w, Words(StripLeft(after)), " ");
      }
    }
  }

  /** The prepared text is a function of the words alone. */
  lemma {:induction false} PreparedFromWords(text: string)
    ensures PrepareText(text) == Tighten(Join(Words(text), " "))
  {
    StripContains(text);
    CollapseIsJoin(Strip(text));
    WordsStripLeft(text);
    WordsStripRight(StripLeft(text));
  }

  /** How much white space separates two parts does not matter, as long as there is some. */
  lemma {:induction false} SpaceDoesNotMatter(a: string, w: string, w': string, b: string)
    requires AllSpace(w) && AllSpace(w') && w != "" && w' != ""
    ensures PrepareText(a + w + b) == PrepareText(a + w' + b)
  {
    WordsAcross(a, w, b);
    WordsAcross(a, w', b);
    PreparedFromWords(a + w + b);
    PreparedFromWords(a + w' + b);
  }

  // ----- Exactly when two texts are prepared alike -----

  predicate Opens(w: string) {
    w != "" && w[|w| - 1] == '('
  }

  predicate ProperWords(ws: seq<string>) {
    forall i :: 0 <= i < |ws| ==> ws[i] != "" && NoSpace(ws[i])
  }

  /** A word that ends in an opening parenthesis swallows the next one. */
  function Fuse(ws: seq<string>): seq<string>
    decreases |ws|
  {
    if |ws| < 2 then ws
    else if Opens(ws[0]) then Fuse([ws[0] + ws[1]] + ws[2..])
    else [ws[0]] + Fuse(ws[1..])
  }

  lemma {:induction false} FusedProper(ws: seq<string>)
    requires ProperWords(ws)
    ensures ProperWords(Fuse(ws)) && (Fuse(ws) == [] <==> ws == [])
    decreases |ws|
  {
    if |ws| < 2 {
    } else if Opens(ws[0]) {
      var fused := [ws[0] + ws[1]] + ws[2..];
      assert forall i :: 1 <= i < |fused| ==> fused[i] == ws[i + 1];
      FusedProper(fused);
    } else {
      FusedProper(ws[1..]);
    }
  }

  lemma {:induction false} WordsProper(s: string)
    ensures ProperWords(Words(s))
    decreases |s|
  {
    if s == "" {
    } else if IsSpace(s[0]) {
      WordsProper(s[1..]);
    } else {
      FirstWordSplit(s);
      WordsProper(s[|FirstWord(s)|..]);
    }
  }

  lemma {:induction false} StripLeftNone(s: string)
    requires s != "" ==> !IsSpace(s[0])
    ensures StripLeft(s) == s
  {
  }

  /** A word is kept; white space after its last parenthesis is not. */
  lemma {:induction false} TightenWord(w: string, rest: string)
    requires NoSpace(w) && w != ""
    ensures Tighten(w + rest) == w + Tighten(if Opens(w) then StripLeft(rest) else rest)
  {
    var s, w' := w + rest, w[1..];
    assert s[1..] == w' + rest && w == [w[0]] + w';
    if w' == "" {
      assert w' + rest == rest;
    } else {
      TightenWord(w', rest);
      StripLeftNone(w' + rest);
      Regroup([w[0]], w', Tighten(if Opens(w) then StripLeft(rest) else rest));
    }
  }

  lemma {:induction false} TightenBlank(s: string)
    ensures Tighten([' '] + s) == [' '] + Tighten(s)
  {
    assert ([' '] + s)[1..] == s;
  }

  lemma {:induction false} JoinHead(ws: seq<string>)
    requires ProperWords(ws) && ws != []
    ensures Join(ws, " ") != "" && !IsSpace(Join(ws, " ")[0])
  {
    assert ws[0] != "" && !IsSpace(ws[0][0]);
  }

  /** Gluing two words in front of the rest. */
  lemma {:induction false} JoinGlued(w: string, ws: seq<string>)
    requires ws != []
    ensures Join([w + ws[0]] + ws[1..], " ") == w + Join(ws, " ")
  {
    if |ws| == 1 {
    } else {
      JoinFirst(w + ws[0], ws[1..], " ");
      assert w + ws[0] + " " + Join(ws[1..], " ") == w + (ws[0] + " " + Join(ws[1..], " "));
    }
  }

  lemma {:induction false} StripBlank(s: string)
    requires s != "" && !IsSpace(s[0])
    ensures StripLeft([' '] + s) == s && StripLeft(s) == s
  {
    assert ([' '] + s)[1..] == s;
  }

  lemma {:induction false} TightenTwo(w: string, tail: string)
    requires NoSpace(w) && w != "" && tail != "" && !IsSpace(tail[0])
    ensures Tighten(w + " " + tail) == if Opens(w) then Tighten(w + tail) else w + " " + Tighten(tail)
  {
    hide *;
    StripBlank(tail);
    Regroup(w, [' '], tail);
    TightenWord(w, [' '] + tail);
    TightenWord(w, tail);
    TightenBlank(tail);
    Regroup(w, [' '], Tighten(tail));
  }

  lemma {:induction false} GluedProper(ws: seq<string>)
    requires ProperWords(ws) && |ws| >= 2
    ensures ProperWords([ws[0] + ws[1]] + ws[2..]) && ProperWords(ws[1..])
  {
    var fused := [ws[0] + ws[1]] + ws[2..];
    assert forall i :: 1 <= i < |fused| ==> fused[i] == ws[i + 1];
  }

  lemma {:induction false} TightenJoin(ws: seq<string>)
    requires ProperWords(ws)
    ensures Tighten(Join(ws, " ")) == Join(Fuse(ws), " ")
    decreases |ws|
  {
    if ws == [] {
    } else if |ws| == 1 {
      TightenWord(ws[0], "");
      assert ws[0] + "" == ws[0];
    } else {
      hide Tighten, Join, ProperWords, Opens;
      var w, rest := ws[0], ws[1..];
      assert ws == [w] + rest;
      GluedProper(ws);
      JoinFirst(w, rest, " ");
      WordIn(ws);
      JoinHead(rest);
      TightenTwo(w, Join(rest, " "));
      if Opens(w) {
        assert ws[1] == rest[0] && ws[2..] == rest[1..];
        TightenJoin([w + rest[0]] + rest[1..]);
        JoinGlued(w, rest);
      } else {
        TightenJoin(rest);
        FusedProper(rest);
        JoinFirst(w, Fuse(rest), " ");
      }
    }
  }

  lemma {:induction false} WordIn(ws: seq<string>)
    requires ProperWords(ws) && ws != []
    ensures ws[0] != "" && NoSpace(ws[0])
  {
  }

  /** The words of a prepared text are the fused words. */
  lemma {:induction false} PreparedSplits(text: string)
    ensures PrepareText(text) == Join(Fuse(Words(text)), " ")
    ensures Words(text) != [] ==> Split(PrepareText(text), ' ') == Fuse(Words(text))
    ensures Words(text) == [] <==> PrepareText(text) == ""
  {
    PreparedFromWords(text);
    WordsProper(text);
    TightenJoin(Words(text));
    FusedProper(Words(text));
    var ws := Fuse(Words(text));
    if ws != [] {
      forall p | p in ws
        ensures ' ' !in p
      {
        var i :| 0 <= i < |ws| && ws[i] == p;
        assert NoSpace(ws[i]);
      }
      SplitJoin(ws, ' ');
      JoinHead(ws);
    }
  }

  /** Two texts are prepared alike exactly when their fused words are the same. */
  lemma {:induction false} PreparedAlikeIff(text: string, text': string)
    ensures PrepareText(text) == PrepareText(text') <==> Fuse(Words(text)) == Fuse(Words(text'))
  {
    PreparedSplits(text);
    PreparedSplits(text');
    hide PrepareText, Words, Split;
  }

  // ----- Prepared texts are exactly the texts that stay unchanged -----

  predicate Spaced(s: string) {
    forall i :: 0 <= i < |s| && IsSpace(s[i]) ==> s[i] == ' ' && (i + 1 < |s| ==> !IsSpace(s[i + 1]))
  }

  predicate Tight(s: string) {
    forall i :: 0 <= i < |s| - 1 && s[i] == '(' ==> !IsSpace(s[i + 1])
  }

  /** Single blanks only, none at the ends and none after an opening parenthesis. */
  predicate Normal(s: string) {
    Trimmed(s) && Spaced(s) && Tight(s)
  }

  lemma {:induction false} SpacedCons(c: char, s: string)
    requires Spaced(s) && (IsSpace(c) ==> c == ' ' && (s != "" ==> !IsSpace(s[0])))
    ensures Spaced([c] + s)
  {
  }

  lemma {:induction false} TightCons(c: char, s: string)
    requires Tight(s) && (c == '(' && s != "" ==> !IsSpace(s[0]))
    ensures Tight([c] + s)
  {
    var t := [c] + s;
    forall i | 0 <= i < |t| - 1 && t[i] == '('
      ensures !IsSpace(t[i + 1])
    {
      assert i > 0 ==> t[i] == s[i - 1] && t[i + 1] == s[i];
    }
  }

  lemma {:induction false} SuffixSpaced(s: string, k: nat)
    requires k <= |s| && Spaced(s)
    ensures Spaced(s[k..])
  {
    forall i | 0 <= i < |s[k..]| && IsSpace(s[k..][i])
      ensures s[k..][i] == ' ' && (i + 1 < |s[k..]| ==> !IsSpace(s[k..][i + 1]))
    {
      assert s[k..][i] == s[k + i];
    }
  }

  lemma {:induction false} CollapseSpaced(s: string)
    ensures Spaced(Collapse(s))
    ensures s == "" <==> Collapse(s) == ""
    ensures s != "" ==> (IsSpace(Collapse(s)[0]) <==> IsSpace(s[0]))
    decreases |s|
  {
    if s == "" {
    } else {
      var rest := if IsSpace(s[0]) then StripLeft(s[1..]) else s[1..];
      StripLeftSuffix(s[1..]);
      CollapseSpaced(rest);
      SpacedCons(Collapse(s)[0], Collapse(rest));
    }
  }

  lemma {:induction false} CollapseLast(s: string)
    requires s != "" && !IsSpace(s[|s| - 1])
    ensures Collapse(s) != "" && Collapse(s)[|Collapse(s)| - 1] == s[|s| - 1]
    decreases |s|
  {
    if |s| > 1 {
      StripLeftSuffix(s[1..]);
      StripLeftTail(s[1..]);
      CollapseLast(if IsSpace(s[0]) then StripLeft(s[1..]) else s[1..]);
    }
  }

  lemma {:induction false} TightenNormal(s: string)
    requires Spaced(s)
    ensures Spaced(Tighten(s)) && Tight(Tighten(s))
    ensures s == "" <==> Tighten(s) == ""
    ensures s != "" ==> Tighten(s)[0] == s[0]
    decreases |s|
  {
    if s == "" {
    } else {
      var rest := if s[0] == '(' then StripLeft(s[1..]) else s[1..];
      StripLeftSuffix(s[1..]);
      SuffixSpaced(s, 1);
      SuffixSpaced(s[1..], |s[1..]| - |StripLeft(s[1..])|);
      TightenNormal(rest);
      assert Tighten(s) == [s[0]] + Tighten(rest);
      SpacedCons(s[0], Tighten(rest));
      TightCons(s[0], Tighten(rest));
    }
  }

  lemma {:induction false} TightenLast(s: string)
    requires s != "" && !IsSpace(s[|s| - 1])
    ensures Tighten(s) != "" && Tighten(s)[|Tighten(s)| - 1] == s[|s| - 1]
    decreases |s|
  {
    if |s| > 1 {
      StripLeftSuffix(s[1..]);
      StripLeftTail(s[1..]);
      TightenLast(if s[0] == '(' then StripLeft(s[1..]) else s[1..]);
    }
  }

  lemma {:induction false} PreparedIsNormal(text: string)
    ensures Normal(PrepareText(text))
  {
    StripContains(text);
    var s := Strip(text);
    CollapseSpaced(s);
    TightenNormal(Collapse(s));
    if s != "" {
      CollapseLast(s);
      TightenLast(Collapse(s));
    }
  }

  lemma {:induction false} CollapseFixed(s: string)
    requires Spaced(s)
    ensures Collapse(s) == s
  {
    if s == "" {
    } else {
      SuffixSpaced(s, 1);
      CollapseFixed(s[1..]);
      assert IsSpace(s[0]) ==> StripLeft(s[1..]) == s[1..];
      assert s == [s[0]] + s[1..];
    }
  }

  lemma {:induction false} TightenFixed(s: string)
    requires Tight(s)
    ensures Tighten(s) == s
  {
    if s == "" {
    } else {
      assert s == [s[0]] + s[1..];
      assert s[0] == '(' ==> StripLeft(s[1..]) == s[1..];
      forall i | 0 <= i < |s[1..]| - 1 && s[1..][i] == '('
        ensures !IsSpace(s[1..][i + 1])
      {
        assert s[i + 1] == '(' && s[1..][i + 1] == s[i + 2];
      }
      TightenFixed(s[1..]);
    }
  }

  /** Preparing leaves exactly the normal texts unchanged. */
  lemma {:induction false} UnchangedIffNormal(text: string)
    ensures PrepareText(text) == text <==> Normal(text)
  {
    PreparedIsNormal(text);
    if Normal(text) {
      StripTrimmed(text);
      CollapseFixed(text);
      TightenFixed(text);
    }
  }

  /** Preparing twice is preparing once. */
  lemma {:induction false} PrepareIdempotent(text: string)
    ensures PrepareText(PrepareText(text)) == PrepareText(text)
  {
    PreparedIsNormal(text);
    UnchangedIffNormal(PrepareText(text));
  }
}
