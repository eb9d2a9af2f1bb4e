/**
 The attribute dictionaries of tools/cef_parser.py: the text inside a cef metadata comment is a
 comma-separated list of `name` or `name=value` items; repeated names collect their values in a
 list. Python dictionaries keep insertion order, so a dictionary is an ordered list of entries.
 */
module Attributes {
  import opened Options
  import opened PythonStrings
  import opened Sequences

  /** `True` for a bare name, or the text after `=`. */
  datatype Value = Flag | Text(text: string)

  datatype Entry = One(value: Value) | Many(values: seq<Value>)

  datatype Binding = Binding(name: string, entry: Entry)

  type Dict = seq<Binding>

  /** One `name` or `name=value` of the text. */
  datatype Assignment = Assignment(name: string, value: Value)

  // ----- Dictionary operations -----

  function Lookup(d: Dict, name: string): Option<Entry> {
    if d == [] then None
    else if d[0].name == name then Some(d[0].entry)
    else Lookup(d[1..], name)
  }

  function Append(e: Entry, v: Value): Entry {
    match e
    case One(w) => Many([w, v])
    case Many(ws) => Many(ws + [v])
  }

  /** Add a value: a second value for a name turns its entry into a list. */
  function Add(d: Dict, name: string, v: Value): Dict {
    if d == [] then [Binding(name, One(v))]
    else if d[0].name == name then [Binding(name, Append(d[0].entry, v))] + d[1..]
    else [d[0]] + Add(d[1..], name, v)
  }

  function AddAll(d: Dict, pairs: seq<Assignment>): Dict
    decreases pairs
  {
    if pairs == [] then d else AddAll(Add(d, pairs[0].name, pairs[0].value), pairs[1..])
  }

  // ----- str_to_dict -----

  datatype Item = Blank | Malformed | Pair(name: string, value: Value)

  /** One comma-separated part. */
  function ParseItem(text: string): Item {
    var part := Strip(text);
    if |part| == 0 then Blank else
      var sparts := Split(part, '=');
      if |sparts| > 2 then Malformed
      else if |sparts| == 2 then Pair(Strip(sparts[0]), Text(Strip(sparts[1])))
      else Pair(Strip(sparts[0]), Flag)
  }

  /** The name/value pairs in source order; None where the source raises. */
  function Collect(items: seq<Item>): Option<seq<Assignment>> {
    if items == [] then Some([]) else
      var rest := Collect(items[1..]);
      match items[0]
      case Malformed => None
      case Blank => rest
      case Pair(n, v) => if rest.None? then None else Some([Assignment(n, v)] + rest.value)
  }

  function Items(text: string): seq<Item> {
    Map(ParseItem, Split(text, ','))
  }

  function Pairs(text: string): Option<seq<Assignment>> {
    Collect(Items(text))
  }

  function StrToDict(text: string): Option<Dict> {
    var pairs := Pairs(text);
    if pairs.None? then None else Some(AddAll([], pairs.value))
  }

  lemma {:induction false} CollectAppend(a: seq<Item>, b: seq<Item>)
    ensures Collect(a + b)
            == if Collect(a).None? || Collect(b).None? then None
               else Some(Collect(a).value + Collect(b).value)
  {
    if a == [] {
      assert a + b == b;
      assert Collect(b).Some? ==> [] + Collect(b).value == Collect(b).value;
    } else {
      assert (a + b)[1..] == a[1..] + b;
      CollectAppend(a[1..], b);
      if a[0].Pair? && Collect(a[1..]).Some? && Collect(b).Some? {
        var first := [Assignment(a[0].name, a[0].value)];
        assert first + (Collect(a[1..]).value + Collect(b).value) == Collect(a).value + Collect(b).value;
      }
    }
  }

  lemma {:induction false} AddAllAppend(d: Dict, a: seq<Assignment>, b: seq<Assignment>)
    ensures AddAll(d, a + b) == AddAll(AddAll(d, a), b)
    decreases a
  {
    if a == [] {
      assert a + b == b;
    } else {
      assert (a + b)[1..] == a[1..] + b;
      AddAllAppend(Add(d, a[0].name, a[0].value), a[1..], b);
    }
  }

  lemma {:induction false} CollectOne(item: Item)
    ensures Collect([item]) == match item
                               case Malformed => None
                               case Blank => Some([])
                               case Pair(n, v) => Some([Assignment(n, v)])
  {
    assert [item][1..] == [];
    if item.Pair? {
      var first := [Assignment(item.name, item.value)];
      assert first + [] == first;
    }
  }

  /** What one more item does to the pairs collected so far. */
  lemma {:induction false} CollectStep(items: seq<Item>, i: nat)
    requires i < |items| && Collect(items[..i]).Some?
    ensures items[i].Malformed? ==> Collect(items).None?
    ensures items[i].Blank? ==> Collect(items[..i + 1]) == Collect(items[..i])
    ensures items[i].Pair? ==>
              Collect(items[..i + 1]) == Some(Collect(items[..i]).value + [Assignment(items[i].name, items[i].value)])
  {
    assert items[..i + 1] == items[..i] + [items[i]];
    assert items == items[..i + 1] + items[i + 1..];
    CollectOne(items[i]);
    CollectAppend(items[..i], [items[i]]);
    CollectAppend(items[..i + 1], items[i + 1..]);
    if items[i].Blank? {
      assert Collect(items[..i]).value + [] == Collect(items[..i]).value;
    }
  }

  /** The loop of `str_to_dict`: the dictionary grows part by part, and a malformed part raises. */
  method ParseDict(text: string) returns (r: Option<Dict>)
    ensures r == StrToDict(text)
  {
    var dict: Dict := [];
    var parts := Split(text, ',');
    ghost var items := Items(text);
    var i := 0;
    while i < |parts|
      invariant 0 <= i <= |parts|
      invariant Collect(items[..i]).Some?
      invariant dict == AddAll([], Collect(items[..i]).value)
    {
      CollectStep(items, i);
      match ParseItem(parts[i]) {
        case Blank =>
        case Malformed =>
          return None;
        case Pair(name, val) =>
          AddAllAppend([], Collect(items[..i]).value, [Assignment(name, val)]);
          dict := Add(dict, name, val);
      }
      i := i + 1;
    }
    assert items[..i] == items;
    r := Some(dict);
  }

  // ----- get_attrib_list -----

  function EntryValues(e: Entry): seq<Value> {
    match e
    case One(v) => [v]
    case Many(vs) => vs
  }

  function AttribList(d: Dict, name: string): Option<seq<Value>> {
    match Lookup(d, name)
    case None => None
    case Some(e) => Some(EntryValues(e))
  }

  /** The values given to `name`, in source order. */
  function ValuesOf(pairs: seq<Assignment>, name: string): seq<Value> {
    if pairs == [] then []
    else if pairs[0].name == name then [pairs[0].value] + ValuesOf(pairs[1..], name)
    else ValuesOf(pairs[1..], name)
  }

  /** What `get_attrib_list` answers after more values were added. */
  function Extend(before: Option<seq<Value>>, vs: seq<Value>): Option<seq<Value>> {
    if vs == [] then before
    else if before.None? then Some(vs)
    else Some(before.value + vs)
  }

  lemma {:induction false} AddAttribList(d: Dict, n: string, v: Value, name: string)
    ensures AttribList(Add(d, n, v), name) == Extend(AttribList(d, name), if n == name then [v] else [])
  {
    if d == [] {
      assert [Binding(n, One(v))][1..] == [];
    } else {
      AddAttribList(d[1..], n, v, name);
      assert EntryValues(Append(d[0].entry, v)) == EntryValues(d[0].entry) + [v];
      assert Add(d, n, v)[1..] == if d[0].name == n then d[1..] else Add(d[1..], n, v);
    }
  }

  lemma {:induction false} AddAllAttribList(d: Dict, pairs: seq<Assignment>, name: string)
    ensures AttribList(AddAll(d, pairs), name) == Extend(AttribList(d, name), ValuesOf(pairs, name))
    decreases pairs
  {
    if pairs == [] {
    } else {
      var d' := Add(d, pairs[0].name, pairs[0].value);
      AddAttribList(d, pairs[0].name, pairs[0].value, name);
      AddAllAttribList(d', pairs[1..], name);
      var before, vs := AttribList(d, name), ValuesOf(pairs[1..], name);
      assert [pairs[0].value] + [] == [pairs[0].value];
      assert before.Some? ==> before.value + [pairs[0].value] + vs == before.value + ([pairs[0].value] + vs);
    }
  }

  /** On every accepted text, the values of a name are exactly those written, in source order. */
  lemma {:induction false} AttribListInSourceOrder(text: string, name: string)
    requires StrToDict(text).Some?
    ensures Pairs(text).Some?
    ensures AttribList(StrToDict(text).value, name) == Extend(None, ValuesOf(Pairs(text).value, name))
  {
    AddAllAttribList([], Pairs(text).value, name);
  }

  // ----- dict_to_str -----

  function ItemText(a: Assignment): string {
    match a.value
    case Flag => a.name
    case Text(t) => a.name + "=" + t
  }

  function EntryPairs(name: string, e: Entry): seq<Assignment> {
    match e
    case One(v) => [Assignment(name, v)]
    case Many(vs) => Map((v: Value) => Assignment(name, v), vs)
  }

  function PairsOf(d: Dict): seq<Assignment> {
    if d == [] then [] else EntryPairs(d[0].name, d[0].entry) + PairsOf(d[1..])
  }

  /** Python cannot concatenate a name with `True`: a list holds strings only. */
  predicate Printable(d: Dict) {
    forall i :: 0 <= i < |d| && d[i].entry.Many? ==> forall v :: v in d[i].entry.values ==> v.Text?
  }

  function DictToStr(d: Dict): string
    requires Printable(d)
  {
    Join(Map(ItemText, PairsOf(d)), ",")
  }

  lemma {:induction false} PairsOfAppend(a: Dict, b: Dict)
    ensures PairsOf(a + b) == PairsOf(a) + PairsOf(b)
  {
    if a == [] {
      assert a + b == b;
    } else {
      assert (a + b)[1..] == a[1..] + b;
      PairsOfAppend(a[1..], b);
    }
  }

  lemma {:induction false} PairsOfStep(d: Dict, i: nat)
    requires i < |d|
    ensures PairsOf(d[..i + 1]) == PairsOf(d[..i]) + EntryPairs(d[i].name, d[i].entry)
  {
    var one := [d[i]];
    assert d[..i + 1] == d[..i] + one;
    PairsOfAppend(d[..i], one);
    assert one[1..] == [] && PairsOf(one) == EntryPairs(d[i].name, d[i].entry) + [];
  }

  /** What one more entry does to the items printed so far. */
  lemma {:induction false} PrintStep(d: Dict, i: nat)
    requires i < |d|
    ensures Map(ItemText, PairsOf(d[..i + 1]))
            == Map(ItemText, PairsOf(d[..i]))
               + match d[i].entry
                 case One(v) => [ItemText(Assignment(d[i].name, v))]
                 case Many(vs) => Map(ItemText, EntryPairs(d[i].name, Many(vs)))
  {
    PairsOfStep(d, i);
    MapAppend(ItemText, PairsOf(d[..i]), EntryPairs(d[i].name, d[i].entry));
    if d[i].entry.One? {
      assert Map(ItemText, [Assignment(d[i].name, d[i].entry.value)])
             == [ItemText(Assignment(d[i].name, d[i].entry.value))];
    }
  }

  function ListTexts(name: string, vals: seq<Value>): (r: seq<string>)
    ensures |r| == |vals|
  {
    Map(ItemText, EntryPairs(name, Many(vals)))
  }

  lemma {:induction false} ListTextAt(name: string, vals: seq<Value>, j: nat)
    requires j < |vals| && vals[j].Text?
    ensures ListTexts(name, vals)[j] == name + "=" + vals[j].text
  {
    assert EntryPairs(name, Many(vals))[j] == Assignment(name, vals[j]);
  }

  /** The inner loop of `dict_to_str`: one item for every value of a list. */
  method PrintList(name: string, vals: seq<Value>) returns (items: seq<string>)
    requires forall v :: v in vals ==> v.Text?
    ensures items == ListTexts(name, vals)
  {
    hide *;
    items := [];
    for j := 0 to |vals|
      invariant items == ListTexts(name, vals)[..j]
    {
      ListTextAt(name, vals, j);
      items := items + [name + "=" + vals[j].text];
    }
  }

  /** The outer loop of `dict_to_str`. */
  method PrintDict(d: Dict) returns (r: string)
    requires Printable(d)
    ensures r == DictToStr(d)
  {
    var items: seq<string> := [];
    for i := 0 to |d|
      invariant items == Map(ItemText, PairsOf(d[..i]))
    {
      PrintStep(d, i);
      match d[i].entry {
        case One(Flag) =>
          items := items + [d[i].name];
        case One(Text(t)) =>
          items := items + [d[i].name + "=" + t];
        case Many(vals) =>
          var listed := PrintList(d[i].name, vals);
          items := items + listed;
      }
    }
    assert d[..|d|] == d;
    r := Join(items, ",");
  }

  // ----- The round trip -----

  predicate Plain(s: string) {
    Trimmed(s) && ',' !in s && '=' !in s
  }

  predicate PlainPair(a: Assignment) {
    && Plain(a.name)
    && match a.value
       case Flag => a.name != ""
       case Text(t) => Plain(t)
  }

  predicate DistinctKeys(d: Dict) {
    forall i, j :: 0 <= i < j < |d| ==> d[i].name != d[j].name
  }

  /** A dictionary that `str_to_dict` could have produced from plain names and values. */
  predicate WellFormed(d: Dict) {
    && DistinctKeys(d)
    && Printable(d)
    && (forall i :: 0 <= i < |d| && d[i].entry.Many? ==> |d[i].entry.values| >= 2)
    && (forall p :: p in PairsOf(d) ==> PlainPair(p))
  }

  lemma {:induction false} ItemTextPlain(a: Assignment)
    requires PlainPair(a)
    ensures ',' !in ItemText(a)
    ensures Strip(ItemText(a)) == ItemText(a) && ItemText(a) != ""
    ensures Split(ItemText(a), '=') == match a.value
                                       case Flag => [a.name]
                                       case Text(t) => [a.name, t]
  {
    var s := ItemText(a);
    assert Trimmed(s);
    StripTrimmed(s);
    SplitWhole(a.name, '=');
    if a.value.Text? {
      var t := a.value.text;
      assert s == a.name + ['='] + t;
      SplitPiece(a.name, t, '=');
      SplitWhole(t, '=');
      assert [a.name] + [t] == [a.name, t];
    }
  }

  lemma {:induction false} ParseItemText(a: Assignment)
    requires PlainPair(a)
    ensures ParseItem(ItemText(a)) == Pair(a.name, a.value)
  {
    ItemTextPlain(a);
    StripTrimmed(a.name);
    if a.value.Text? {
      StripTrimmed(a.value.text);
    }
  }

  lemma {:induction false} ParseItemTexts(pairs: seq<Assignment>)
    requires forall p :: p in pairs ==> PlainPair(p)
    ensures Map(ParseItem, Map(ItemText, pairs)) == Map((a: Assignment) => Pair(a.name, a.value), pairs)
    ensures forall s :: s in Map(ItemText, pairs) ==> ',' !in s
  {
    forall i | 0 <= i < |pairs|
      ensures ParseItem(ItemText(pairs[i])) == Pair(pairs[i].name, pairs[i].value)
      ensures ',' !in ItemText(pairs[i])
    {
      ItemTextPlain(pairs[i]);
      ParseItemText(pairs[i]);
    }
  }

  lemma {:induction false} CollectPairs(pairs: seq<Assignment>)
    ensures Collect(Map((a: Assignment) => Pair(a.name, a.value), pairs)) == Some(pairs)
  {
    if pairs == [] {
    } else {
      CollectPairs(pairs[1..]);
      var f := (a: Assignment) => Pair(a.name, a.value);
      assert Map(f, pairs)[1..] == Map(f, pairs[1..]);
      assert [Assignment(pairs[0].name, pairs[0].value)] + pairs[1..] == pairs;
    }
  }

  lemma {:induction false} AddFresh(d: Dict, name: string, v: Value)
    requires forall i :: 0 <= i < |d| ==> d[i].name != name
    ensures Add(d, name, v) == d + [Binding(name, One(v))]
  {
    if d == [] {
    } else {
      AddFresh(d[1..], name, v);
    }
  }

  lemma {:induction false} AddLast(d: Dict, name: string, e: Entry, v: Value)
    requires forall i :: 0 <= i < |d| ==> d[i].name != name
    ensures Add(d + [Binding(name, e)], name, v) == d + [Binding(name, Append(e, v))]
  {
    if d == [] {
    } else {
      assert (d + [Binding(name, e)])[1..] == d[1..] + [Binding(name, e)];
      AddLast(d[1..], name, e, v);
    }
  }

  lemma {:induction false} AddMany(d: Dict, name: string, ws: seq<Value>, vs: seq<Value>)
    requires forall i :: 0 <= i < |d| ==> d[i].name != name
    ensures AddAll(d + [Binding(name, Many(ws))], EntryPairs(name, Many(vs))) == d + [Binding(name, Many(ws + vs))]
    decreases vs
  {
    var pairs := EntryPairs(name, Many(vs));
    if vs == [] {
      assert ws + vs == ws;
    } else {
      AddLast(d, name, Many(ws), vs[0]);
      AddMany(d, name, ws + [vs[0]], vs[1..]);
      assert pairs[1..] == EntryPairs(name, Many(vs[1..]));
      assert ws + [vs[0]] + vs[1..] == ws + vs;
    }
  }

  lemma {:induction false} AddEntry(d: Dict, name: string, e: Entry)
    requires forall i :: 0 <= i < |d| ==> d[i].name != name
    requires e.Many? ==> |e.values| >= 2
    ensures AddAll(d, EntryPairs(name, e)) == d + [Binding(name, e)]
  {
    match e {
      case One(v) =>
        AddFresh(d, name, v);
      case Many(vs) =>
        var pairs := EntryPairs(name, e);
        AddFresh(d, name, vs[0]);
        AddLast(d, name, One(vs[0]), vs[1]);
        AddMany(d, name, [vs[0], vs[1]], vs[2..]);
        assert pairs[1..][1..] == EntryPairs(name, Many(vs[2..]));
        assert [vs[0], vs[1]] + vs[2..] == vs;
    }
  }

  lemma {:induction false} AddAllPairsOf(d: Dict, rest: Dict)
    requires DistinctKeys(d + rest)
    requires forall i :: 0 <= i < |rest| && rest[i].entry.Many? ==> |rest[i].entry.values| >= 2
    ensures AddAll(d, PairsOf(rest)) == d + rest
    decreases rest
  {
    if rest == [] {
      assert d + rest == d;
    } else {
      var name, e := rest[0].name, rest[0].entry;
      assert d + rest == (d + [rest[0]]) + rest[1..];
      forall i | 0 <= i < |d|
        ensures d[i].name != name
      {
        assert (d + rest)[i].name != (d + rest)[|d|].name;
      }
      AddEntry(d, name, e);
      AddAllAppend(d, EntryPairs(name, e), PairsOf(rest[1..]));
      AddAllPairsOf(d + [rest[0]], rest[1..]);
    }
  }

  /** `str_to_dict(dict_to_str(d)) == d`, including the order of the entries. */
  lemma {:induction false} RoundTrip(d: Dict)
    requires WellFormed(d)
    ensures StrToDict(DictToStr(d)) == Some(d)
  {
    var pairs := PairsOf(d);
    var items := Map(ItemText, pairs);
    ParseItemTexts(pairs);
    CollectPairs(pairs);
    if items == [] {
      assert Items("") == [Blank];
      assert [Blank][1..] == [];
    } else {
      SplitJoin(items, ',');
    }
    assert [] + d == d;
    AddAllPairsOf([], d);
  }

  // ----- What a text means, part by part -----

  /** The parts between commas are read one after the other. */
  lemma {:induction false} PairsAcross(a: string, b: string)
    ensures Pairs(a + "," + b)
            == if Pairs(a).None? || Pairs(b).None? then None else Some(Pairs(a).value + Pairs(b).value)
  {
    SplitAcross(a, b, ',');
    assert a + "," + b == a + [','] + b;
    MapAppend(ParseItem, Split(a, ','), Split(b, ','));
    CollectAppend(Items(a), Items(b));
  }

  lemma {:induction false} PairsOfPart(part: string)
    requires ',' !in part
    ensures Pairs(part) == Collect([ParseItem(part)])
  {
    SplitWhole(part, ',');
    assert Items(part) == [ParseItem(part)];
  }

  /** A name alone, with any white space around it, is a flag; white space alone is nothing. */
  lemma {:induction false} NameMeaning(w: string, name: string, w': string)
    requires AllSpace(w) && AllSpace(w') && ',' !in w + name + w' && Trimmed(name) && '=' !in name
    ensures Pairs(w + name + w') == Some(if name == "" then [] else [Assignment(name, Flag)])
  {
    var part := w + name + w';
    PairsOfPart(part);
    StripPadded(w, name, w');
    SplitWhole(name, '=');
    StripTrimmed(name);
    CollectOne(ParseItem(part));
  }

  lemma {:induction false} ParsePair(left: string, right: string)
    requires '=' !in left && '=' !in right && Strip(left + "=" + right) == left + "=" + right
    ensures ParseItem(left + "=" + right) == Pair(Strip(left), Text(Strip(right)))
  {
    assert left + "=" + right == left + ['='] + right;
    SplitPiece(left, right, '=');
    SplitWhole(right, '=');
    hide Strip;
    assert [left] + [right] == [left, right];
  }

  lemma {:induction false} PaddedSides(name: string, w: string, w': string, val: string)
    requires AllSpace(w) && AllSpace(w') && Trimmed(name) && Trimmed(val)
    ensures Strip(name + w) == name && Strip(w' + val) == val
  {
    assert "" + name + w == name + w && w' + val + "" == w' + val;
    StripPadded("", name, w);
    StripPadded(w', val, "");
  }

  /** A name and a value, with any white space around the equals sign. */
  lemma {:induction false} ValueMeaning(name: string, w: string, w': string, val: string)
    requires AllSpace(w) && AllSpace(w') && Plain(name) && Plain(val) && name != "" && val != ""
    requires ',' !in w && ',' !in w'
    ensures Pairs(name + w + "=" + (w' + val)) == Some([Assignment(name, Text(val))])
  {
    var left, right := name + w, w' + val;
    var part := left + "=" + right;
    assert part[0] == name[0] && part[|part| - 1] == val[|val| - 1];
    StripTrimmed(part);
    NoEquals(w);
    NoEquals(w');
    hide Strip, Pairs, Collect, ParseItem, AllSpace;
    PairsOfPart(part);
    ParsePair(left, right);
    PaddedSides(name, w, w', val);
    CollectOne(ParseItem(part));
  }

  lemma {:induction false} NoEquals(w: string)
    requires AllSpace(w)
    ensures '=' !in w
  {
    forall i | 0 <= i < |w|
      ensures w[i] != '='
    {
      assert IsSpace(w[i]);
    }
  }

  lemma {:induction false} SplitLength(s: string, c: char)
    ensures |Split(s, c)| == Count(s, c) + 1
  {
    if s == "" {
    } else {
      SplitLength(s[1..], c);
    }
  }

  lemma {:induction false} CollectSomeIff(items: seq<Item>)
    ensures Collect(items).Some? <==> forall i :: 0 <= i < |items| ==> !items[i].Malformed?
  {
    if items == [] {
    } else {
      CollectSomeIff(items[1..]);
      assert forall i :: 0 <= i < |items[1..]| ==> items[1..][i] == items[i + 1];
    }
  }

  /** A text is accepted exactly when no part between commas has two equals signs. */
  lemma {:induction false} AcceptedIff(text: string)
    ensures Pairs(text).Some? <==> forall part :: part in Split(text, ',') ==> Count(Strip(part), '=') <= 1
  {
    var parts := Split(text, ',');
    CollectSomeIff(Items(text));
    forall i | 0 <= i < |parts|
      ensures ParseItem(parts[i]).Malformed? <==> Count(Strip(parts[i]), '=') > 1
    {
      SplitLength(Strip(parts[i]), '=');
    }
    if forall i :: 0 <= i < |parts| ==> Count(Strip(parts[i]), '=') <= 1 {
      forall part | part in parts
        ensures Count(Strip(part), '=') <= 1
      {
        var i :| 0 <= i < |parts| && parts[i] == part;
      }
    }
    assert forall i :: 0 <= i < |parts| ==> parts[i] in parts;
  }

  // ----- Only well-formed dictionaries come from texts -----

  lemma {:induction false} StripKeepsFree(s: string, c: char)
    requires c !in s
    ensures c !in Strip(s) && Trimmed(Strip(s))
  {
    StripContains(s);
    StripLeftSuffix(s);
    StripRightPrefix(StripLeft(s));
  }

  lemma {:induction false} StripIdempotent(s: string)
    requires Strip(s) != ""
    ensures Strip(Strip(s)) == Strip(s)
  {
    StripContains(s);
    StripTrimmed(Strip(s));
  }

  /** A piece between equals signs, stripped, is plain. */
  lemma {:induction false} PiecePlain(part: string, i: nat)
    requires ',' !in part && i < |Split(part, '=')|
    ensures Plain(Strip(Split(part, '=')[i]))
  {
    var piece := Split(part, '=')[i];
    SplitPieceFree(part, '=', i);
    SplitContains(part, '=', i);
    IndexOfFirst(part, piece);
    var k := IndexOf(part, piece);
    assert piece == part[k..k + |piece|];
    StripKeepsFree(piece, '=');
    StripKeepsFree(piece, ',');
  }

  lemma {:induction false} ParsedItemPlain(text: string)
    requires ',' !in text && ParseItem(text).Pair?
    ensures PlainPair(Assignment(ParseItem(text).name, ParseItem(text).value))
  {
    var part := Strip(text);
    StripKeepsFree(text, ',');
    PiecePlain(part, 0);
    if |Split(part, '=')| == 2 {
      PiecePlain(part, 1);
    } else {
      JoinSplit(part, '=');
      StripIdempotent(text);
      assert Split(part, '=') == [part];
    }
  }

  lemma {:induction false} CollectedPlain(items: seq<Item>)
    requires Collect(items).Some?
    requires forall i :: 0 <= i < |items| && items[i].Pair? ==> PlainPair(Assignment(items[i].name, items[i].value))
    ensures forall i :: 0 <= i < |Collect(items).value| ==> PlainPair(Collect(items).value[i])
  {
    hide PlainPair;
    if items == [] {
    } else {
      CollectedPlain(items[1..]);
    }
  }

  /** Every pair read from a text is plain. */
  lemma {:induction false} PairsPlain(text: string)
    requires Pairs(text).Some?
    ensures forall i :: 0 <= i < |Pairs(text).value| ==> PlainPair(Pairs(text).value[i])
  {
    var parts := Split(text, ',');
    forall i | 0 <= i < |Items(text)| && Items(text)[i].Pair?
      ensures PlainPair(Assignment(Items(text)[i].name, Items(text)[i].value))
    {
      SplitPieceFree(text, ',', i);
      ParsedItemPlain(parts[i]);
    }
    CollectedPlain(Items(text));
  }

  predicate PlainEntry(name: string, e: Entry) {
    && (e.Many? ==> |e.values| >= 2)
    && forall i :: 0 <= i < |EntryValues(e)| ==> PlainPair(Assignment(name, EntryValues(e)[i]))
  }

  /** Well-formed, apart from lists that hold bare names. */
  predicate Proper(d: Dict) {
    DistinctKeys(d) && forall i :: 0 <= i < |d| ==> PlainEntry(d[i].name, d[i].entry)
  }

  lemma {:induction false} AddKeys(d: Dict, name: string, v: Value, other: string)
    requires other != name && forall i :: 0 <= i < |d| ==> d[i].name != other
    ensures forall i :: 0 <= i < |Add(d, name, v)| ==> Add(d, name, v)[i].name != other
  {
    if d == [] {
    } else if d[0].name != name {
      AddKeys(d[1..], name, v, other);
    }
  }

  lemma {:induction false} ProperCons(b: Binding, d: Dict)
    ensures Proper([b] + d)
            <==> PlainEntry(b.name, b.entry) && Proper(d) && forall i :: 0 <= i < |d| ==> d[i].name != b.name
  {
    hide PlainEntry;
    var all := [b] + d;
    assert forall i :: 0 <= i < |d| ==> all[i + 1] == d[i];
    assert all[0] == b;
  }

  lemma {:induction false} AppendPlain(name: string, e: Entry, v: Value)
    requires PlainEntry(name, e) && PlainPair(Assignment(name, v))
    ensures PlainEntry(name, Append(e, v))
  {
    hide PlainPair;
    assert EntryValues(Append(e, v)) == EntryValues(e) + [v];
  }

  lemma {:induction false} AddProper(d: Dict, name: string, v: Value)
    requires Proper(d) && PlainPair(Assignment(name, v))
    ensures Proper(Add(d, name, v))
  {
    hide PlainPair, PlainEntry, Proper;
    if d == [] {
      AddFirstProper(name, v);
    } else {
      assert d == [d[0]] + d[1..];
      ProperCons(d[0], d[1..]);
      if d[0].name == name {
        AppendPlain(name, d[0].entry, v);
        ProperCons(Binding(name, Append(d[0].entry, v)), d[1..]);
      } else {
        AddProper(d[1..], name, v);
        AddKeys(d[1..], name, v, d[0].name);
        ProperCons(d[0], Add(d[1..], name, v));
      }
    }
  }

  lemma {:induction false} AddFirstProper(name: string, v: Value)
    requires PlainPair(Assignment(name, v))
    ensures Proper([Binding(name, One(v))])
  {
    hide PlainPair;
  }

  lemma {:induction false} AddAllProper(d: Dict, pairs: seq<Assignment>)
    requires Proper(d) && forall i :: 0 <= i < |pairs| ==> PlainPair(pairs[i])
    ensures Proper(AddAll(d, pairs))
    decreases pairs
  {
    hide PlainPair, Proper;
    if pairs == [] {
    } else {
      assert pairs[0] == Assignment(pairs[0].name, pairs[0].value);
      AddProper(d, pairs[0].name, pairs[0].value);
      AddAllProper(Add(d, pairs[0].name, pairs[0].value), pairs[1..]);
    }
  }

  lemma {:induction false} ProperPairs(d: Dict)
    requires Proper(d)
    ensures forall p :: p in PairsOf(d) ==> PlainPair(p)
  {
    hide PlainPair;
    if d == [] {
    } else {
      assert d == [d[0]] + d[1..];
      ProperCons(d[0], d[1..]);
      ProperPairs(d[1..]);
      EntryPairsPlain(d[0].name, d[0].entry);
    }
  }

  lemma {:induction false} EntryPairsPlain(name: string, e: Entry)
    requires PlainEntry(name, e)
    ensures forall p :: p in EntryPairs(name, e) ==> PlainPair(p)
  {
    hide PlainPair;
    forall p | p in EntryPairs(name, e)
      ensures PlainPair(p)
    {
      var i :| 0 <= i < |EntryPairs(name, e)| && EntryPairs(name, e)[i] == p;
      assert p == Assignment(name, EntryValues(e)[i]);
    }
  }

  /** Every dictionary read from a text, if it can be printed at all, is well formed. */
  lemma {:induction false} ParsedIsWellFormed(text: string)
    requires StrToDict(text).Some? && Printable(StrToDict(text).value)
    ensures WellFormed(StrToDict(text).value)
  {
    PairsPlain(text);
    AddAllProper([], Pairs(text).value);
    ProperPairs(StrToDict(text).value);
    hide AddAll, Pairs, PairsOf, PlainPair, Printable;
  }

  /** Exactly the well-formed dictionaries survive printing and parsing. */
  lemma {:induction false} RoundTripIff(d: Dict)
    requires Printable(d)
    ensures StrToDict(DictToStr(d)) == Some(d) <==> WellFormed(d)
  {
    if WellFormed(d) {
      RoundTrip(d);
    }
    if StrToDict(DictToStr(d)) == Some(d) {
      ParsedIsWellFormed(DictToStr(d));
    }
  }

  // ----- Keys come from the text -----

  lemma {:induction false} ItemNameContained(part: string)
    requires ParseItem(part).Pair?
    ensures Contains(part, ParseItem(part).name)
  {
    var stripped := Strip(part);
    var piece := Split(stripped, '=')[0];
    assert Contains(part, stripped) by { StripContains(part); }
    assert Contains(stripped, piece) by { SplitContains(stripped, '=', 0); }
    assert Contains(piece, Strip(piece)) by { StripContains(piece); }
    ContainsTransitive(part, stripped, piece);
    ContainsTransitive(part, piece, Strip(piece));
  }

  lemma {:induction false} CollectedNames(items: seq<Item>, name: string)
    requires Collect(items).Some? && ValuesOf(Collect(items).value, name) != []
    ensures exists i :: 0 <= i < |items| && items[i].Pair? && items[i].name == name
  {
    if items[0].Pair? && items[0].name == name {
    } else {
      assert items[0].Pair? ==> Collect(items).value[1..] == Collect(items[1..]).value;
      CollectedNames(items[1..], name);
      var i :| 0 <= i < |items[1..]| && items[1..][i].Pair? && items[1..][i].name == name;
      assert items[i + 1].Pair?;
    }
  }

  /** Every key of a parsed dictionary occurs in the raw text: a substring test over-approximates it. */
  lemma {:induction false} KeyOccursInText(text: string, name: string)
    requires StrToDict(text).Some? && Lookup(StrToDict(text).value, name).Some?
    ensures Contains(text, name)
  {
    AttribListInSourceOrder(text, name);
    CollectedNames(Items(text), name);
    var i :| 0 <= i < |Items(text)| && Items(text)[i].Pair? && Items(text)[i].name == name;
    var part := Split(text, ',')[i];
    SplitContains(text, ',', i);
    ItemNameContained(part);
    ContainsTransitive(text, part, name);
  }
}
