/**
 Splitting an argument list at commas (obj_function.__init__ in tools/cef_parser.py). A piece with
 an unclosed template bracket is glued to the next piece.
 */
module ArgumentSplit {
  import opened Options
  import opened PythonStrings
  import opened Sequences

  /** The piece ends inside a template argument list. */
  predicate Unclosed(s: string) {
    '<' in s && '>' !in s
  }

  /** The arguments made from the pieces; None where `arglist[argindex]` runs past the end. */
  function Glue(pieces: seq<string>): Option<seq<string>> {
    if pieces == [] then Some([])
    else if Unclosed(pieces[0]) then
      if |pieces| == 1 then None
      else Emit(Strip(pieces[0] + "," + pieces[1]), Glue(pieces[2..]))
    else Emit(Strip(pieces[0]), Glue(pieces[1..]))
  }

  /** An empty argument is skipped. */
  function Emit(arg: string, rest: Option<seq<string>>): Option<seq<string>> {
    if rest.None? then None
    else if |arg| > 0 then Some([arg] + rest.value)
    else rest
  }

  function SplitArgs(argval: string): Option<seq<string>> {
    Glue(Split(argval, ','))
  }

  function Continue(args: seq<string>, rest: Option<seq<string>>): Option<seq<string>> {
    if rest.None? then None else Some(args + rest.value)
  }

  lemma {:induction false} ContinueEmit(args: seq<string>, arg: string, rest: Option<seq<string>>)
    ensures Continue(args, Emit(arg, rest)) == Continue(if |arg| > 0 then args + [arg] else args, rest)
  {
    if rest.Some? && |arg| > 0 {
      assert args + ([arg] + rest.value) == args + [arg] + rest.value;
    }
  }

  /** The argument loop; None where it raises IndexError. */
  method ParseArgs(argval: string) returns (r: Option<seq<string>>)
    ensures r == SplitArgs(argval)
  {
    var arguments: seq<string> := [];
    var arglist := Split(argval, ',');
    var argindex := 0;
    assert arglist[0..] == arglist;
    assert Glue(arglist).Some? ==> [] + Glue(arglist).value == Glue(arglist).value;
    while argindex < |arglist|
      invariant 0 <= argindex <= |arglist|
      invariant SplitArgs(argval) == Continue(arguments, Glue(arglist[argindex..]))
    {
      var arg := arglist[argindex];
      ghost var pieces := arglist[argindex..];
      if Unclosed(arg) {
        argindex := argindex + 1;
        if argindex >= |arglist| {
          return None;
        }
        arg := arg + "," + arglist[argindex];
        assert pieces[2..] == arglist[argindex + 1..];
      } else {
        assert pieces[1..] == arglist[argindex + 1..];
      }
      arg := Strip(arg);
      ContinueEmit(arguments, arg, Glue(arglist[argindex + 1..]));
      if |arg| > 0 {
        arguments := arguments + [arg];
      }
      argindex := argindex + 1;
    }
    assert arguments + [] == arguments;
    r := Some(arguments);
  }

  // ----- Which argument lists survive -----

  /** No comma and no unclosed bracket, or exactly one comma, after an unclosed bracket. */
  predicate Separable(text: string) {
    var pieces := Split(text, ',');
    || (|pieces| == 1 && !Unclosed(pieces[0]))
    || (|pieces| == 2 && Unclosed(pieces[0]))
  }

  function Pieces(texts: seq<string>): seq<string> {
    if texts == [] then [] else Split(texts[0], ',') + Pieces(texts[1..])
  }

  function Stripped(texts: seq<string>): seq<string> {
    Map(Strip, texts)
  }

  lemma {:induction false} SplitOfJoin(texts: seq<string>)
    requires texts != []
    ensures Split(Join(texts, ","), ',') == Pieces(texts)
  {
    if |texts| == 1 {
      assert Pieces(texts[1..]) == [];
    } else {
      SplitOfJoin(texts[1..]);
      SplitAcross(texts[0], Join(texts[1..], ","), ',');
    }
  }

  /** Text without a comma is one piece, text with one comma is two. */
  lemma {:induction false} TextOfPieces(text: string)
    ensures var ps := Split(text, ',');
            && (|ps| == 1 ==> text == ps[0])
            && (|ps| == 2 ==> text == ps[0] + "," + ps[1])
  {
    JoinSplit(text, ',');
    var ps := Split(text, ',');
    if |ps| == 2 {
      assert Join(ps, ",") == ps[0] + "," + Join(ps[1..], ",");
    }
  }

  lemma {:induction false} SeparableGlues(texts: seq<string>)
    requires forall t :: t in texts ==> Separable(t) && Strip(t) != ""
    ensures Glue(Pieces(texts)) == Some(Stripped(texts))
  {
    if texts == [] {
    } else {
      SeparableGlues(texts[1..]);
      assert texts[0] in texts;
      TextOfPieces(texts[0]);
      var ps := Split(texts[0], ',');
      var all := Pieces(texts);
      assert all[0] == ps[0] && all[|ps|..] == Pieces(texts[1..]);
      assert |ps| == 2 ==> all[1] == ps[1];
      assert Stripped(texts) == [Strip(texts[0])] + Stripped(texts[1..]);
    }
  }

  // ----- The converse, by counting commas -----

  function Weight(args: seq<string>): nat {
    if args == [] then 0 else Count(args[0], ',') + 1 + Weight(args[1..])
  }

  predicate CommaFree(pieces: seq<string>) {
    forall p :: p in pieces ==> ',' !in p
  }

  lemma {:induction false} StripCount(s: string)
    ensures Count(Strip(s), ',') == Count(s, ',')
  {
    StripLeftCount(s);
    StripRightCount(StripLeft(s));
  }

  lemma {:induction false} StripLeftCount(s: string)
    ensures Count(StripLeft(s), ',') == Count(s, ',')
  {
    if s != [] && IsSpace(s[0]) {
      StripLeftCount(s[1..]);
    }
  }

  lemma {:induction false} StripRightCount(s: string)
    ensures Count(StripRight(s), ',') == Count(s, ',')
  {
    if s != [] && IsSpace(s[|s| - 1]) {
      var init, last := s[..|s| - 1], [s[|s| - 1]];
      StripRightCount(init);
      assert s == init + last;
      CountAppend(init, last, ',');
      assert last[1..] == [];
    }
  }

  lemma {:induction false} SplitCount(s: string)
    ensures |Split(s, ',')| == Count(s, ',') + 1
  {
    if s == [] {
    } else {
      SplitCount(s[1..]);
    }
  }

  lemma {:induction false} CountOne(p: string, q: string)
    requires ',' !in p && ',' !in q
    ensures Count(p + "," + q, ',') == 1 && Count(p, ',') == 0
  {
    CountZero(p, ',');
    CountZero(q, ',');
    CountAppend(p, ",", ',');
    CountAppend(p + ",", q, ',');
    assert ","[1..] == "" && Count(",", ',') == 1;
  }

  /** Arguments made from pieces carry no more commas than there were pieces. */
  lemma {:induction false} GlueWeight(pieces: seq<string>)
    requires CommaFree(pieces) && Glue(pieces).Some?
    ensures Weight(Glue(pieces).value) <= |pieces|
  {
    if pieces == [] {
    } else {
      assert pieces[0] in pieces;
      var glued := Unclosed(pieces[0]);
      var k := if glued then 2 else 1;
      var arg := if glued then pieces[0] + "," + pieces[1] else pieces[0];
      GlueWeight(pieces[k..]);
      StripCount(arg);
      CountOne(pieces[0], if glued then pieces[1] else "");
      var rest := Glue(pieces[k..]).value;
      assert ([Strip(arg)] + rest)[1..] == rest;
    }
  }

  lemma {:induction false} PiecesWeight(texts: seq<string>)
    ensures Weight(Stripped(texts)) == |Pieces(texts)|
    ensures CommaFree(Pieces(texts))
  {
    if texts == [] {
    } else {
      PiecesWeight(texts[1..]);
      StripCount(texts[0]);
      SplitCount(texts[0]);
      assert Stripped(texts)[1..] == Stripped(texts[1..]);
      forall p | p in Split(texts[0], ',')
        ensures ',' !in p
      {
        var i :| 0 <= i < |Split(texts[0], ',')| && Split(texts[0], ',')[i] == p;
        SplitPieceFree(texts[0], ',', i);
      }
    }
  }

  /** If the pieces give the arguments back, the first text is separable and fills the first pieces. */
  lemma {:induction false} FirstSeparable(texts: seq<string>)
    requires texts != [] && Glue(Pieces(texts)) == Some(Stripped(texts))
    ensures Separable(texts[0])
    ensures Glue(Pieces(texts[1..])) == Some(Stripped(texts[1..]))
  {
    var all := Pieces(texts);
    var ps := Split(texts[0], ',');
    PiecesWeight(texts);
    assert all[0] == ps[0] && all[0] in all && all[|ps|..] == Pieces(texts[1..]);
    var glued := Unclosed(all[0]);
    var k := if glued then 2 else 1;
    var arg := if glued then all[0] + "," + all[1] else all[0];
    CountOne(all[0], if glued then all[1] else "");
    StripCount(arg);
    StripCount(texts[0]);
    SplitCount(texts[0]);
    GlueWeight(all[k..]);
    var rest := Glue(all[k..]).value;
    assert ([Strip(arg)] + rest)[1..] == rest;
    assert Strip(arg) != "" && Strip(arg) == Stripped(texts)[0];
    assert Stripped(texts)[1..] == Stripped(texts[1..]);
  }

  lemma {:induction false} AllSeparable(texts: seq<string>)
    requires Glue(Pieces(texts)) == Some(Stripped(texts))
    ensures forall t :: t in texts ==> Separable(t)
  {
    if texts == [] {
    } else {
      FirstSeparable(texts);
      AllSeparable(texts[1..]);
      assert texts == [texts[0]] + texts[1..];
    }
  }

  /** No comma and no unclosed bracket. */
  predicate Whole(text: string) {
    ',' !in text && ('<' !in text || '>' in text)
  }

  /** The text is `a,b` with a bracket that opens in `a` and does not close there. */
  predicate Bridges(text: string, a: string, b: string) {
    text == a + "," + b && ',' !in a && ',' !in b && '<' in a && '>' !in a
  }

  lemma {:induction false} OnePiece(text: string)
    ensures |Split(text, ',')| == 1 <==> ',' !in text
    ensures ',' !in text ==> Split(text, ',') == [text]
  {
    if ',' !in text {
      SplitWhole(text, ',');
    } else {
      JoinSplit(text, ',');
      SplitPieceFree(text, ',', 0);
    }
  }

  lemma {:induction false} TwoPieces(text: string)
    requires |Split(text, ',')| == 2
    ensures var pieces := Split(text, ',');
            text == pieces[0] + "," + pieces[1] && ',' !in pieces[0] && ',' !in pieces[1]
  {
    JoinSplit(text, ',');
    SplitPieceFree(text, ',', 0);
    SplitPieceFree(text, ',', 1);
    var pieces := Split(text, ',');
    assert Join(pieces, [',']) == pieces[0] + [','] + Join(pieces[1..], [',']);
  }

  lemma {:induction false} BridgePieces(text: string, a: string, b: string)
    requires Bridges(text, a, b)
    ensures Split(text, ',') == [a, b]
  {
    SplitPiece(a, b, ',');
    SplitWhole(b, ',');
    assert text == a + [','] + b && [a] + [b] == [a, b];
  }

  /** What separable means, character by character. */
  lemma {:induction false} SeparableIff(text: string)
    ensures Separable(text) <==> Whole(text) || exists a, b :: Bridges(text, a, b)
  {
    OnePiece(text);
    if |Split(text, ',')| == 2 {
      TwoPieces(text);
      assert Separable(text) ==> Bridges(text, Split(text, ',')[0], Split(text, ',')[1]);
    }
    if a, b :| Bridges(text, a, b) {
      BridgePieces(text, a, b);
    }
  }

  /**
   Joining arguments with commas, with any white space around them, and splitting again gives the
   arguments back exactly when each has no comma and no unclosed bracket, or one comma that
   follows an unclosed bracket.
   */
  lemma {:induction false} SplitJoinIff(texts: seq<string>)
    requires forall t :: t in texts ==> Strip(t) != ""
    ensures SplitArgs(Join(texts, ",")) == Some(Stripped(texts))
            <==> forall t :: t in texts ==> Whole(t) || exists a, b :: Bridges(t, a, b)
  {
    forall t | t in texts
      ensures Separable(t) <==> Whole(t) || exists a, b :: Bridges(t, a, b)
    {
      SeparableIff(t);
    }
    hide Separable, Whole, Bridges;
    if texts == [] {
      assert Split("", ',') == [""];
      assert [""][1..] == [];
    } else {
      SplitOfJoin(texts);
      if forall t :: t in texts ==> Separable(t) {
        SeparableGlues(texts);
      }
      if SplitArgs(Join(texts, ",")) == Some(Stripped(texts)) {
        AllSeparable(texts);
      }
    }
  }
}
