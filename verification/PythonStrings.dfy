/** The Python string operations the tools rely on: `find`, `rfind`, `in`, `split`, `join`, `strip`. */
module PythonStrings {

  predicate OccursAt(s: string, sub: string, j: int) {
    0 <= j && j + |sub| <= |s| && s[j..j + |sub|] == sub
  }

  /** `r` is the first position of `sub` in `s`, or -1 if there is none. */
  predicate IsFirst(s: string, sub: string, r: int) {
    && (r == -1 || OccursAt(s, sub, r))
    && (forall j :: 0 <= j <= |s| && OccursAt(s, sub, j) ==> 0 <= r <= j)
  }

  lemma {:induction false} FirstExists(s: string, sub: string, i: nat) returns (r: int)
    requires i <= |s| + 1 && forall j :: 0 <= j < i ==> !OccursAt(s, sub, j)
    ensures -1 <= r <= |s| && IsFirst(s, sub, r)
    decreases |s| + 1 - i
  {
    if i == |s| + 1 {
      r := -1;
    } else if OccursAt(s, sub, i) {
      r := i;
    } else {
      r := FirstExists(s, sub, i + 1);
    }
  }

  /** `s.find(sub)` */
  function IndexOf(s: string, sub: string): (r: int)
    ensures r == -1 || 0 <= r <= |s| - |sub|
  {
    assert exists r :: -1 <= r <= |s| && IsFirst(s, sub, r) by {
      var r := FirstExists(s, sub, 0);
    }
    var r :| -1 <= r <= |s| && IsFirst(s, sub, r);
    r
  }

  /** The answer is an occurrence, and the first one. */
  lemma {:induction false} IndexOfFirst(s: string, sub: string)
    ensures IndexOf(s, sub) == -1 || OccursAt(s, sub, IndexOf(s, sub))
    ensures forall j :: OccursAt(s, sub, j) ==> 0 <= IndexOf(s, sub) <= j
  {
    assert IsFirst(s, sub, IndexOf(s, sub));
  }

  lemma {:induction false} OccursChar(s: string, c: char, j: int)
    ensures OccursAt(s, [c], j) <==> 0 <= j < |s| && s[j] == c
  {
    if 0 <= j < |s| {
      assert s[j..j + 1] == [s[j]];
    }
  }

  /** Searching for a single character. */
  lemma {:induction false} IndexOfChar(s: string, c: char)
    ensures var i := IndexOf(s, [c]);
            if i < 0 then c !in s else i < |s| && s[i] == c && c !in s[..i]
  {
    var i := IndexOf(s, [c]);
    IndexOfFirst(s, [c]);
    OccursChar(s, c, i);
    forall j | 0 <= j < |s| && s[j] == c
      ensures 0 <= i <= j
    {
      OccursChar(s, c, j);
    }
  }

  /** `s.find(sub, from)` */
  function Find(s: string, sub: string, from: nat): (r: int)
    ensures r == -1 || from <= r <= |s| - |sub|
  {
    if from > |s| then -1 else
      var r := IndexOf(s[from..], sub);
      if r < 0 then -1 else from + r
  }

  /** `sub in s` */
  predicate Contains(s: string, sub: string) {
    IndexOf(s, sub) >= 0
  }

  lemma {:induction false} ContainsMiddle(a: string, sub: string, b: string)
    ensures Contains(a + sub + b, sub)
  {
    assert OccursAt(a + sub + b, sub, |a|);
    IndexOfFirst(a + sub + b, sub);
  }

  /** `s.rfind(c)`: the last position of `c`, or -1. */
  function LastIndexOf(s: string, c: char): (r: int)
    ensures -1 <= r < |s|
    ensures r >= 0 ==> s[r] == c
    ensures forall j :: r < j < |s| ==> s[j] != c
  {
    if s == [] then -1
    else if s[|s| - 1] == c then |s| - 1
    else LastIndexOf(s[..|s| - 1], c)
  }

  /** `s.count(c)` for a single character. */
  function Count(s: string, c: char): nat {
    if s == [] then 0 else (if s[0] == c then 1 else 0) + Count(s[1..], c)
  }

  lemma {:induction false} CountAppend(a: string, b: string, c: char)
    ensures Count(a + b, c) == Count(a, c) + Count(b, c)
  {
    if a == [] {
      assert a + b == b;
    } else {
      assert (a + b)[1..] == a[1..] + b;
      CountAppend(a[1..], b, c);
    }
  }

  lemma {:induction false} CountZero(s: string, c: char)
    ensures Count(s, c) == 0 <==> c !in s
  {
    if s == [] {
    } else {
      CountZero(s[1..], c);
      assert s == [s[0]] + s[1..];
    }
  }

  // ----- split and join -----

  /** `s.split(c)`: the pieces between occurrences of `c`; never empty. */
  function Split(s: string, c: char): (r: seq<string>)
    ensures r != []
  {
    if s == [] then [""]
    else
      var rest := Split(s[1..], c);
      if s[0] == c then [""] + rest else [[s[0]] + rest[0]] + rest[1..]
  }

  /** `c.join(parts)` */
  function Join(parts: seq<string>, c: string): string {
    if parts == [] then ""
    else if |parts| == 1 then parts[0]
    else parts[0] + c + Join(parts[1..], c)
  }

  lemma {:induction false} SplitWhole(s: string, c: char)
    requires c !in s
    ensures Split(s, c) == [s]
  {
    if s == [] {
    } else {
      SplitWhole(s[1..], c);
      assert s == [s[0]] + s[1..];
    }
  }

  lemma {:induction false} SplitPieceFree(s: string, c: char, i: nat)
    requires i < |Split(s, c)|
    ensures c !in Split(s, c)[i]
  {
    if s == [] {
    } else {
      var rest := Split(s[1..], c);
      if s[0] == c {
        if i > 0 {
          SplitPieceFree(s[1..], c, i - 1);
        }
      } else {
        SplitPieceFree(s[1..], c, i);
      }
    }
  }

  /** Put one more character in front of split text. */
  function PutFirst(x: char, c: char, parts: seq<string>): seq<string>
    requires parts != []
  {
    if x == c then [""] + parts else [[x] + parts[0]] + parts[1..]
  }

  lemma {:induction false} PutFirstAppend(x: char, c: char, a: seq<string>, b: seq<string>)
    requires a != []
    ensures PutFirst(x, c, a + b) == PutFirst(x, c, a) + b
  {
    assert (a + b)[1..] == a[1..] + b;
  }

  lemma {:induction false} SplitFirst(x: char, rest: string, c: char)
    ensures Split([x] + rest, c) == PutFirst(x, c, Split(rest, c))
  {
    assert ([x] + rest)[1..] == rest;
  }

  /** Splitting at a separator splits both sides. */
  lemma {:induction false} SplitAcross(a: string, b: string, c: char)
    ensures Split(a + [c] + b, c) == Split(a, c) + Split(b, c)
  {
    if a == [] {
      assert a + [c] + b == [c] + b;
      SplitFirst(c, b, c);
    } else {
      SplitAcross(a[1..], b, c);
      var tail := a[1..] + [c] + b;
      SplitFirst(a[0], tail, c);
      SplitFirst(a[0], a[1..], c);
      assert a + [c] + b == [a[0]] + tail && a == [a[0]] + a[1..];
      PutFirstAppend(a[0], c, Split(a[1..], c), Split(b, c));
    }
  }

  /** Splitting text that starts with a piece and the separator. */
  lemma {:induction false} SplitPiece(p: string, rest: string, c: char)
    requires c !in p
    ensures Split(p + [c] + rest, c) == [p] + Split(rest, c)
  {
    SplitAcross(p, rest, c);
    SplitWhole(p, c);
  }

  lemma {:induction false} JoinFirst(first: string, rest: seq<string>, c: string)
    requires rest != []
    ensures Join([first] + rest, c) == first + c + Join(rest, c)
  {
    assert ([first] + rest)[1..] == rest;
  }

  /** Splitting undoes joining when no part contains the separator. */
  lemma {:induction false} SplitJoin(parts: seq<string>, c: char)
    requires parts != [] && forall p :: p in parts ==> c !in p
    ensures Split(Join(parts, [c]), c) == parts
  {
    var first, rest := parts[0], parts[1..];
    assert parts == [first] + rest;
    if rest == [] {
      SplitWhole(first, c);
    } else {
      assert first in parts && forall p :: p in rest ==> p in parts;
      SplitJoin(rest, c);
      JoinFirst(first, rest, [c]);
      SplitPiece(first, Join(rest, [c]), c);
    }
  }

  /** Joining undoes splitting, always. */
  lemma {:induction false} JoinSplit(s: string, c: char)
    ensures Join(Split(s, c), [c]) == s
  {
    if s == [] {
    } else {
      JoinSplit(s[1..], c);
      var rest := Split(s[1..], c);
      var r := Split(s, c);
      if s[0] == c {
        assert r[1..] == rest;
      } else if |rest| > 1 {
        assert r[1..] == rest[1..];
      }
    }
  }

  lemma {:induction false} JoinAppend(a: seq<string>, b: seq<string>, c: string)
    requires a != [] && b != []
    ensures Join(a + b, c) == Join(a, c) + c + Join(b, c)
  {
    if |a| == 1 {
      assert (a + b)[1..] == b;
    } else {
      assert (a + b)[1..] == a[1..] + b;
      JoinAppend(a[1..], b, c);
    }
  }

  // ----- strip -----

  /** The white space that `str.strip()` removes, up to U+00FF. */
  predicate IsSpace(c: char) {
    c == ' ' || '\t' <= c <= '\r' || 0x1c as char <= c <= 0x1f as char
    || c == 0x85 as char || c == 0xa0 as char
  }

  function StripLeft(s: string): string {
    if s != [] && IsSpace(s[0]) then StripLeft(s[1..]) else s
  }

  function StripRight(s: string): string {
    if s != [] && IsSpace(s[|s| - 1]) then StripRight(s[..|s| - 1]) else s
  }

  function Strip(s: string): string {
    StripRight(StripLeft(s))
  }

  predicate Trimmed(s: string) {
    s != [] ==> !IsSpace(s[0]) && !IsSpace(s[|s| - 1])
  }

  lemma {:induction false} StripTrimmed(s: string)
    requires Trimmed(s)
    ensures Strip(s) == s
  {
  }

  /** The characters that count as white space. */
  lemma {:induction false} SpaceCharacters(c: char)
    requires c as int < 256
    ensures IsSpace(c) <==> c as int in [9, 10, 11, 12, 13, 28, 29, 30, 31, 32, 133, 160]
  {
  }

  predicate AllSpace(s: string) {
    forall i :: 0 <= i < |s| ==> IsSpace(s[i])
  }

  lemma {:induction false} StripLeftPadded(w: string, t: string)
    requires AllSpace(w) && (t != "" ==> !IsSpace(t[0]))
    ensures StripLeft(w + t) == t
  {
    if w == "" {
      assert w + t == t;
    } else {
      assert (w + t)[1..] == w[1..] + t;
      StripLeftPadded(w[1..], t);
    }
  }

  lemma {:induction false} StripRightPadded(t: string, w: string)
    requires AllSpace(w) && (t != "" ==> !IsSpace(t[|t| - 1]))
    ensures StripRight(t + w) == t
  {
    if w == "" {
      assert t + w == t;
    } else {
      var n := |w| - 1;
      assert (t + w)[..|t + w| - 1] == t + w[..n];
      StripRightPadded(t, w[..n]);
    }
  }

  lemma {:induction false} StripRightSpace(w: string)
    requires AllSpace(w)
    ensures StripRight(w) == "" && StripLeft(w) == ""
  {
    assert "" + w == w && w + "" == w;
    StripRightPadded("", w);
    StripLeftPadded(w, "");
  }

  /** Stripping removes all white space around a text, and nothing else. */
  lemma {:induction false} StripPadded(w: string, t: string, w': string)
    requires AllSpace(w) && AllSpace(w') && Trimmed(t)
    ensures Strip(w + t + w') == t
  {
    if t == "" {
      assert AllSpace(w + t + w');
      StripRightSpace(w + t + w');
      StripRightSpace("");
    } else {
      assert w + t + w' == w + (t + w');
      StripLeftPadded(w, t + w');
      StripRightPadded(t, w');
    }
  }

  lemma {:induction false} ContainsTail(s: string, p: string)
    requires s != [] && Contains(s[1..], p)
    ensures Contains(s, p)
  {
    var i := IndexOf(s[1..], p);
    IndexOfFirst(s[1..], p);
    assert s[i + 1..i + 1 + |p|] == s[1..][i..i + |p|];
    assert OccursAt(s, p, i + 1);
    IndexOfFirst(s, p);
  }

  lemma {:induction false} Slices(s: string, from: nat, k: nat)
    requires from + k <= |s|
    ensures s[from..][k..] == s[from + k..] && s[from..][..k] == s[from..from + k]
  {
  }

  lemma {:induction false} ContainsPrefix(s: string, p: string)
    requires p <= s
    ensures Contains(s, p)
  {
    assert OccursAt(s, p, 0);
    IndexOfFirst(s, p);
  }

  /** Every piece of a split occurs in the text. */
  lemma {:induction false} SplitContains(s: string, c: char, i: nat)
    requires i < |Split(s, c)|
    ensures Contains(s, Split(s, c)[i])
  {
    SplitHeadPrefix(s, c);
    if i == 0 {
      ContainsPrefix(s, Split(s, c)[0]);
    } else {
      var rest := Split(s[1..], c);
      var k := if s[0] == c then i - 1 else i;
      assert Split(s, c)[i] == rest[k];
      SplitContains(s[1..], c, k);
      ContainsTail(s, rest[k]);
    }
  }

  lemma {:induction false} SplitHeadPrefix(s: string, c: char)
    ensures Split(s, c)[0] <= s
  {
    if s == [] {
    } else {
      SplitHeadPrefix(s[1..], c);
    }
  }

  lemma {:induction false} StripLeftSuffix(s: string)
    ensures |StripLeft(s)| <= |s| && StripLeft(s) == s[|s| - |StripLeft(s)|..]
    ensures StripLeft(s) != [] ==> !IsSpace(StripLeft(s)[0])
  {
    if s != [] && IsSpace(s[0]) {
      StripLeftSuffix(s[1..]);
    }
  }

  lemma {:induction false} StripRightPrefix(s: string)
    ensures |StripRight(s)| <= |s| && StripRight(s) == s[..|StripRight(s)|]
    ensures StripRight(s) != [] ==> !IsSpace(StripRight(s)[|StripRight(s)| - 1])
  {
    if s != [] && IsSpace(s[|s| - 1]) {
      StripRightPrefix(s[..|s| - 1]);
    }
  }

  lemma {:induction false} StripContains(s: string)
    ensures Contains(s, Strip(s)) && Trimmed(Strip(s))
  {
    StripLeftSuffix(s);
    var left := StripLeft(s);
    StripRightPrefix(left);
    var r := StripRight(left);
    assert s == s[..|s| - |left|] + r + left[|r|..];
    ContainsMiddle(s[..|s| - |left|], r, left[|r|..]);
  }

  lemma {:induction false} ContainsTransitive(s: string, t: string, u: string)
    requires Contains(s, t) && Contains(t, u)
    ensures Contains(s, u)
  {
    var i, j := IndexOf(s, t), IndexOf(t, u);
    IndexOfFirst(s, t);
    IndexOfFirst(t, u);
    assert t[j..j + |u|] == u && s[i..i + |t|] == t;
    forall k | 0 <= k < |u|
      ensures s[i + j + k] == u[k]
    {
      assert s[i..i + |t|][j + k] == t[j + k] == t[j..j + |u|][k];
    }
    assert s[i + j..i + j + |u|] == u;
    assert OccursAt(s, u, i + j);
    IndexOfFirst(s, u);
  }
}
