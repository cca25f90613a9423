/** Parsing undoes printing. */
module YamlRoundTrip {
  import opened Lines
  import opened YamlFrontmatter

  // ---------------------------------------------------------------------------------------------
  // The printer

  datatype Quote = Bare | Single | Double

  /** A text and how to quote it. */
  datatype Scalar = Scalar(text: string, quote: Quote)

  function Shown(s: Scalar): string {
    match s.quote
    case Bare => s.text
    case Single => "'" + s.text + "'"
    case Double => "\"" + s.text + "\""
  }

  datatype Pair = Pair(key: string, value: Scalar)

  datatype Node =
    | Leaf(value: Scalar)
    | Items(items: seq<Scalar>)
    | Entries(pairs: seq<Pair>)

  datatype Entry = Entry(key: string, node: Node)

  function ItemLines(items: seq<Scalar>): (r: seq<string>)
    ensures |r| == |items|
  {
    if items == [] then [] else ["  - " + Shown(items[0])] + ItemLines(items[1..])
  }

  function PairLine(p: Pair): string { "  " + p.key + ": " + Shown(p.value) }

  function PairLines(pairs: seq<Pair>): (r: seq<string>)
    ensures |r| == |pairs|
  {
    if pairs == [] then [] else [PairLine(pairs[0])] + PairLines(pairs[1..])
  }

  ghost predicate IsTrimmed(s: string) { s != [] && !IsSpace(s[0]) && !IsSpace(s[|s| - 1]) }

  /** A bare scalar is trimmed and would not lose quotes; a quoted one is any text of one line. */
  ghost predicate GoodScalar(s: Scalar) {
    LF !in s.text && (s.quote.Bare? ==> IsTrimmed(s.text) && !Wrapped(s.text, '"') && !Wrapped(s.text, '\''))
  }

  ghost predicate GoodKey(k: string) {
    IsTrimmed(k) && LF !in k && ':' !in k && k[0] != '#' && !StartsWith(k, "- ")
  }

  ghost predicate Distinct(keys: seq<string>) {
    forall i, j :: 0 <= i < j < |keys| ==> keys[i] != keys[j]
  }

  ghost predicate GoodPair(p: Pair) { GoodKey(p.key) && GoodScalar(p.value) }

  ghost predicate GoodNode(n: Node) {
    match n
    case Leaf(v) => GoodScalar(v)
    case Items(items) => items != [] && forall k :: 0 <= k < |items| ==> GoodScalar(items[k])
    case Entries(pairs) => pairs != [] && forall k :: 0 <= k < |pairs| ==> GoodPair(pairs[k])
  }

  ghost predicate GoodEntry(e: Entry) {
    GoodKey(e.key) && !StartsWith(e.key, "---") && GoodNode(e.node)
  }

  function NodeLines(e: Entry): seq<string> {
    match e.node
    case Leaf(v) => [e.key + ": " + Shown(v)]
    case Items(items) => [e.key + ":"] + ItemLines(items)
    case Entries(pairs) => [e.key + ":"] + PairLines(pairs)
  }

  function ItemTexts(items: seq<Scalar>): seq<string> {
    if items == [] then [] else [items[0].text] + ItemTexts(items[1..])
  }

  /** Later entries win, as in the map the parser fills. */
  function AddPairs(m: map<string, string>, pairs: seq<Pair>): map<string, string>
    decreases |pairs|
  {
    if pairs == [] then m else AddPairs(m[pairs[0].key := pairs[0].value.text], pairs[1..])
  }

  /** The field an entry stands for. */
  function Meaning(n: Node): Field {
    match n
    case Leaf(v) => Str(v.text)
    case Items(items) => List(ItemTexts(items))
    case Entries(pairs) => Map(AddPairs(map[], pairs))
  }

  // ---------------------------------------------------------------------------------------------
  // Blanks and quotes

  lemma TrimTrimmed(s: string)
    requires IsTrimmed(s)
    ensures Trim(s) == s
  {
  }

  lemma {:induction false} TrimIndented(n: nat, s: string)
    requires IsTrimmed(s)
    ensures Trim(Blanks(n) + s) == s
  {
    if n == 0 {
      assert Blanks(0) + s == s;
    } else {
      var t := Blanks(n) + s;
      assert t[1..] == Blanks(n - 1) + s;
      TrimIndented(n - 1, s);
    }
  }

  function Blanks(n: nat): (r: string)
    ensures |r| == n && forall k :: 0 <= k < n ==> r[k] == ' '
  {
    seq(n, _ => ' ')
  }

  lemma ShownTrimmed(s: Scalar)
    requires GoodScalar(s)
    ensures IsTrimmed(Shown(s)) && LF !in Shown(s)
  {
  }

  lemma UnquoteShown(s: Scalar)
    requires GoodScalar(s)
    ensures Unquote(Shown(s)) == s.text
  {
    ShownTrimmed(s);
    TrimTrimmed(Shown(s));
  }

  // ---------------------------------------------------------------------------------------------
  // One line at a time

  /** A key, a colon, and nothing or a blank and a value. */
  function KeyLine(k: string, v: string): string { if v == [] then k + ":" else k + ": " + v }

  lemma KeyLineTrimmed(k: string, v: string)
    requires IsTrimmed(k) && (v == [] || IsTrimmed(v))
    ensures IsTrimmed(KeyLine(k, v))
  {
    var t := KeyLine(k, v);
    assert t[0] == k[0];
    assert v != [] ==> t[|t| - 1] == v[|v| - 1];
  }

  lemma KeyLineCut(k: string, v: string)
    requires GoodKey(k) && (v == [] || IsTrimmed(v))
    ensures
      var t := KeyLine(k, v);
      IndexOf(t, ':') == |k| < |t| && Trim(t[..|k|]) == k && Trim(t[|k| + 1..]) == v
  {
    var t := KeyLine(k, v);
    assert t[..|k|] == k && t[|k|] == ':';
    IndexOfUnique(t, ':', |k|);
    TrimTrimmed(k);
    if v == [] {
      assert t[|k| + 1..] == [];
    } else {
      assert t[|k| + 1..] == Blanks(1) + v;
      TrimIndented(1, v);
    }
  }

  lemma KeyIsNoItem(k: string, v: string)
    requires GoodKey(k)
    ensures
      var t := KeyLine(k, v);
      t[0] != '#' && !(|t| >= 2 && t[0] == '-' && t[1] == ' ')
  {
    var t := KeyLine(k, v);
    assert t[0] == k[0] && t[1] == if |k| > 1 then k[1] else ':';
    assert |k| > 1 ==> k[..2] == [k[0], k[1]];
  }

  lemma IndentOfBlanks(n: nat, s: string)
    requires IsTrimmed(s)
    ensures IndentOf(Blanks(n) + s) == n
  {
    if n == 0 {
      assert Blanks(0) + s == s;
    } else {
      assert (Blanks(n) + s)[1..] == Blanks(n - 1) + s;
      IndentOfBlanks(n - 1, s);
    }
  }

  /** What a line with a key does, from its key and value. */
  function KeyStep(st: State, nested: bool, k: string, v: string): State {
    if nested && st.currentKey != [] && st.mode == InMap then
      st.(fields := SetEntry(st.fields, st.currentKey, k, Unquote(v)))
    else if v == [] then State(st.fields, k, InMap)
    else State(st.fields[k := Str(Unquote(v))], k, Top)
  }

  lemma KeyLineNext(st: State, indent: nat, k: string, v: string)
    requires GoodKey(k) && (v == [] || IsTrimmed(v))
    ensures Next(st, Blanks(indent) + KeyLine(k, v)) == KeyStep(st, indent > 0, k, v)
  {
    hide Trim, IndentOf, IndexOf, Unquote, KeyLine, SetEntry, PushItem, IsTrimmed, StartsWith, Blanks;
    KeyGood(k);
    var t := KeyLine(k, v);
    KeyLineTrimmed(k, v);
    TrimIndented(indent, t);
    KeyLineCut(k, v);
    KeyIsNoItem(k, v);
    IndentOfBlanks(indent, t);
  }

  lemma KeyGood(k: string)
    requires GoodKey(k)
    ensures IsTrimmed(k)
  {
  }

  lemma LeafLine(st: State, k: string, v: Scalar)
    requires GoodKey(k) && GoodScalar(v)
    ensures Next(st, k + ": " + Shown(v)) == State(st.fields[k := Str(v.text)], k, Top)
  {
    hide Next, Unquote, GoodScalar;
    ShownTrimmed(v);
    UnquoteShown(v);
    KeyLineNext(st, 0, k, Shown(v));
    assert Blanks(0) + KeyLine(k, Shown(v)) == k + ": " + Shown(v);
  }

  lemma HeadLine(st: State, k: string)
    requires GoodKey(k)
    ensures Next(st, k + ":") == State(st.fields, k, InMap)
  {
    hide Next;
    KeyLineNext(st, 0, k, []);
    assert Blanks(0) + KeyLine(k, []) == k + ":";
  }

  lemma ItemLine(st: State, v: Scalar)
    requires GoodScalar(v) && st.currentKey != []
    ensures Next(st, "  - " + Shown(v)) == State(PushItem(st.fields, st.currentKey, v.text), st.currentKey, InList)
  {
    ShownTrimmed(v);
    UnquoteShown(v);
    var t := "- " + Shown(v);
    assert "  - " + Shown(v) == Blanks(2) + t;
    TrimIndented(2, t);
    assert t[2..] == Shown(v);
  }

  lemma PairNext(st: State, p: Pair)
    requires GoodPair(p) && st.currentKey != [] && st.mode == InMap
    ensures Next(st, PairLine(p)) == st.(fields := SetEntry(st.fields, st.currentKey, p.key, p.value.text))
  {
    hide Next, Unquote, SetEntry, GoodScalar;
    var k, v := p.key, p.value;
    ShownTrimmed(v);
    UnquoteShown(v);
    KeyLineNext(st, 2, k, Shown(v));
    assert Blanks(2) + KeyLine(k, Shown(v)) == "  " + k + ": " + Shown(v);
  }

  // ---------------------------------------------------------------------------------------------
  // One entry

  lemma {:induction false} FoldConcat(st: State, a: seq<string>, b: seq<string>)
    ensures Fold(st, a + b) == Fold(Fold(st, a), b)
    decreases |a|
  {
    hide Next;
    if a == [] {
      assert a + b == b;
    } else {
      assert (a + b)[1..] == a[1..] + b;
      FoldConcat(Next(st, a[0]), a[1..], b);
    }
  }

  /** The list a key holds, if it holds one; the empty list when it holds nothing. */
  ghost predicate Holds(st: State, done: seq<string>) {
    && st.currentKey != []
    && if done == [] then st.currentKey !in st.fields
       else st.currentKey in st.fields && st.fields[st.currentKey] == List(done)
  }

  /** `st` with the list `items` at its key. */
  function WithList(st: State, items: seq<string>): State {
    State(st.fields[st.currentKey := List(items)], st.currentKey, InList)
  }

  lemma PushHeld(st: State, done: seq<string>, item: string)
    requires Holds(st, done)
    ensures State(PushItem(st.fields, st.currentKey, item), st.currentKey, InList) == WithList(st, done + [item])
    ensures Holds(WithList(st, done + [item]), done + [item])
  {
    assert [] + [item] == [item];
  }

  lemma ItemTextsCons(done: seq<string>, items: seq<Scalar>)
    requires items != []
    ensures done + ItemTexts(items) == done + [items[0].text] + ItemTexts(items[1..])
  {
  }

  lemma {:induction false} ItemsFold(st: State, done: seq<string>, items: seq<Scalar>)
    requires Holds(st, done) && items != []
    requires forall k :: 0 <= k < |items| ==> GoodScalar(items[k])
    ensures Fold(st, ItemLines(items)) == WithList(st, done + ItemTexts(items))
    decreases |items|
  {
    hide Next, GoodScalar, Holds, PushItem, ItemTexts, Shown;
    var line, rest := "  - " + Shown(items[0]), items[1..];
    var st', done' := WithList(st, done + [items[0].text]), done + [items[0].text];
    HoldsKey(st, done);
    ItemLine(st, items[0]);
    PushHeld(st, done, items[0].text);
    FoldCons(st, line, ItemLines(rest));
    ItemTextsCons(done, items);
    if rest == [] {
      NoItemTexts();
      assert done' + [] == done';
    } else {
      assert forall k :: 0 <= k < |rest| ==> rest[k] == items[k + 1];
      ItemsFold(st', done', rest);
    }
  }

  lemma HoldsKey(st: State, done: seq<string>)
    requires Holds(st, done)
    ensures st.currentKey != []
  {
  }

  lemma NoItemTexts()
    ensures ItemTexts([]) == []
  {
  }

  /** The map a key holds, if it holds one; the empty map when it holds nothing. */
  ghost predicate HoldsMap(st: State, done: map<string, string>) {
    && st.currentKey != [] && st.mode == InMap
    && if done == map[] then st.currentKey !in st.fields
       else st.currentKey in st.fields && st.fields[st.currentKey] == Map(done)
  }

  /** `st` with the map `entries` at its key. */
  function WithMap(st: State, entries: map<string, string>): State {
    st.(fields := st.fields[st.currentKey := Map(entries)])
  }

  lemma SetHeld(st: State, done: map<string, string>, k: string, v: string)
    requires HoldsMap(st, done)
    ensures st.(fields := SetEntry(st.fields, st.currentKey, k, v)) == WithMap(st, done[k := v])
    ensures HoldsMap(WithMap(st, done[k := v]), done[k := v])
  {
    assert k in done[k := v];
  }

  lemma HoldsMapKey(st: State, done: map<string, string>)
    requires HoldsMap(st, done)
    ensures st.currentKey != [] && st.mode == InMap
  {
  }

  lemma {:induction false} PairsFold(st: State, done: map<string, string>, pairs: seq<Pair>)
    requires HoldsMap(st, done) && pairs != []
    requires forall k :: 0 <= k < |pairs| ==> GoodPair(pairs[k])
    ensures Fold(st, PairLines(pairs)) == WithMap(st, AddPairs(done, pairs))
    decreases |pairs|
  {
    hide Next, GoodPair, HoldsMap, SetEntry, PairLine;
    var p, rest := pairs[0], pairs[1..];
    var done' := done[p.key := p.value.text];
    HoldsMapKey(st, done);
    PairNext(st, p);
    SetHeld(st, done, p.key, p.value.text);
    FoldCons(st, PairLine(p), PairLines(rest));
    if rest != [] {
      PairsFold(WithMap(st, done'), done', rest);
    }
  }

  /** The lines of an entry add its field, whatever came before. */
  lemma EntryFold(st: State, e: Entry)
    requires GoodEntry(e) && e.key !in st.fields
    ensures Fold(st, NodeLines(e)).fields == st.fields[e.key := Meaning(e.node)]
  {
    hide Next, GoodScalar, StartsWith;
    if e.node.Leaf? {
      var v := e.node.value;
      LeafLine(st, e.key, v);
      FoldCons(st, e.key + ": " + Shown(v), []);
      assert NodeLines(e) == [e.key + ": " + Shown(v)] + [];
    } else {
      HeadLine(st, e.key);
      var st' := State(st.fields, e.key, InMap);
      if e.node.Items? {
        var items := e.node.items;
        FoldCons(st, e.key + ":", ItemLines(items));
        ItemsFold(st', [], items);
        assert [] + ItemTexts(items) == ItemTexts(items);
      } else {
        FoldCons(st, e.key + ":", PairLines(e.node.pairs));
        PairsFold(st', map[], e.node.pairs);
      }
    }
  }

  // ---------------------------------------------------------------------------------------------
  // All entries

  function FrontLines(entries: seq<Entry>): seq<string> {
    if entries == [] then [] else NodeLines(entries[0]) + FrontLines(entries[1..])
  }

  function Keys(entries: seq<Entry>): (r: seq<string>)
    ensures |r| == |entries| && forall k :: 0 <= k < |r| ==> r[k] == entries[k].key
  {
    seq(|entries|, k requires 0 <= k < |entries| => entries[k].key)
  }

  /** Distinct, printable top-level entries. */
  ghost predicate GoodEntries(entries: seq<Entry>) {
    (forall k :: 0 <= k < |entries| ==> GoodEntry(entries[k])) && Distinct(Keys(entries))
  }

  /** Every entry under its key, and no other key. */
  ghost predicate HoldsExactly(fields: Fields, entries: seq<Entry>) {
    && (forall key :: key in fields ==> key in Keys(entries))
    && (forall k :: 0 <= k < |entries| ==>
          entries[k].key in fields && fields[entries[k].key] == Meaning(entries[k].node))
  }

  function AddEntries(fields: Fields, entries: seq<Entry>): Fields
    decreases |entries|
  {
    if entries == [] then fields
    else AddEntries(fields[entries[0].key := Meaning(entries[0].node)], entries[1..])
  }

  lemma {:induction false} EntriesAll(st: State, entries: seq<Entry>)
    requires GoodEntries(entries)
    requires forall k :: 0 <= k < |entries| ==> entries[k].key !in st.fields
    ensures Fold(st, FrontLines(entries)).fields == AddEntries(st.fields, entries)
    decreases |entries|
  {
    hide Next, Fold, GoodEntry, Meaning, NodeLines;
    if entries == [] {
      FoldNothing(st);
    } else {
      var e, rest := entries[0], entries[1..];
      EntryFold(st, e);
      FoldConcat(st, NodeLines(e), FrontLines(rest));
      forall k | 0 <= k < |rest| ensures rest[k].key != e.key && rest[k] == entries[k + 1] {
        assert Keys(entries)[0] != Keys(entries)[k + 1];
      }
      TailGood(entries);
      EntriesAll(Fold(st, NodeLines(e)), rest);
    }
  }

  lemma FoldNothing(st: State)
    ensures Fold(st, []) == st
  {
  }

  lemma TailGood(entries: seq<Entry>)
    requires GoodEntries(entries) && entries != []
    ensures GoodEntries(entries[1..])
  {
    hide GoodEntry;
    var a, b := Keys(entries), Keys(entries[1..]);
    forall i, j | 0 <= i < j < |b| ensures b[i] != b[j] {
      assert a[i + 1] != a[j + 1];
    }
  }

  lemma {:induction false} AddEntriesOther(fields: Fields, entries: seq<Entry>, key: string)
    requires key !in Keys(entries)
    ensures key in AddEntries(fields, entries) <==> key in fields
    ensures key in fields ==> AddEntries(fields, entries)[key] == fields[key]
    decreases |entries|
  {
    hide GoodEntry, Meaning;
    if entries != [] {
      forall k | 0 <= k < |entries[1..]| ensures Keys(entries[1..])[k] == Keys(entries)[k + 1] {
      }
      assert Keys(entries)[0] == entries[0].key;
      AddEntriesOther(fields[entries[0].key := Meaning(entries[0].node)], entries[1..], key);
    }
  }

  lemma {:induction false} AddEntriesAt(fields: Fields, entries: seq<Entry>, k: nat)
    requires GoodEntries(entries) && k < |entries|
    ensures entries[k].key in AddEntries(fields, entries)
    ensures AddEntries(fields, entries)[entries[k].key] == Meaning(entries[k].node)
    decreases |entries|
  {
    hide GoodEntry, Meaning;
    var e, rest := entries[0], entries[1..];
    var fields' := fields[e.key := Meaning(e.node)];
    TailGood(entries);
    if k == 0 {
      forall i | 0 <= i < |rest| ensures Keys(rest)[i] != e.key {
        assert Keys(entries)[0] != Keys(entries)[i + 1];
      }
      AddEntriesOther(fields', rest, e.key);
    } else {
      AddEntriesAt(fields', rest, k - 1);
    }
  }

  lemma AddEntriesExact(entries: seq<Entry>)
    requires GoodEntries(entries)
    ensures HoldsExactly(AddEntries(map[], entries), entries)
  {
    hide GoodEntry, Meaning, AddEntries;
    forall k | 0 <= k < |entries| ensures
        entries[k].key in AddEntries(map[], entries) &&
        AddEntries(map[], entries)[entries[k].key] == Meaning(entries[k].node)
    {
      AddEntriesAt(map[], entries, k);
    }
    forall key | key in AddEntries(map[], entries) ensures key in Keys(entries) {
      if key !in Keys(entries) {
        AddEntriesOther(map[], entries, key);
      }
    }
  }

  // ---------------------------------------------------------------------------------------------
  // Lines in a document

  /** One line of a frontmatter: not empty, no line ending of its own, not the closing line. */
  ghost predicate FrontLine(l: string) {
    l != [] && Free(l, LF) && l[|l| - 1] != CR && !StartsWith(l, "---")
  }

  ghost predicate AllFront(lines: seq<string>) { forall k :: 0 <= k < |lines| ==> FrontLine(lines[k]) }

  lemma AllFrontConcat(a: seq<string>, b: seq<string>)
    requires AllFront(a) && AllFront(b)
    ensures AllFront(a + b)
  {
    hide FrontLine;
    forall k | 0 <= k < |a + b| ensures FrontLine((a + b)[k]) {
      assert (a + b)[k] == if k < |a| then a[k] else b[k - |a|];
    }
  }

  lemma HeadIsFront(e: Entry, v: string)
    requires GoodEntry(e) && (v == [] || (IsTrimmed(v) && LF !in v))
    ensures FrontLine(KeyLine(e.key, v))
  {
    hide GoodNode;
    var k, l := e.key, KeyLine(e.key, v);
    KeyLineTrimmed(k, v);
    if |k| >= 3 {
      assert l[..3] == k[..3];
    } else if |l| >= 3 {
      assert l[..3][|k|] == ':';
    }
  }

  lemma {:induction false} ItemLinesFront(items: seq<Scalar>)
    requires forall k :: 0 <= k < |items| ==> GoodScalar(items[k])
    ensures AllFront(ItemLines(items))
  {
    if items != [] {
      ShownTrimmed(items[0]);
      var l := "  - " + Shown(items[0]);
      assert l[..3][0] == ' ';
      assert l[|l| - 1] == Shown(items[0])[|Shown(items[0])| - 1];
      ItemLinesFront(items[1..]);
      assert AllFront([l]);
      AllFrontConcat([l], ItemLines(items[1..]));
    }
  }

  lemma {:induction false} PairLinesFront(pairs: seq<Pair>)
    requires forall k :: 0 <= k < |pairs| ==> GoodPair(pairs[k])
    ensures AllFront(PairLines(pairs))
  {
    hide GoodScalar, Shown;
    if pairs != [] {
      var v, l := Shown(pairs[0].value), PairLine(pairs[0]);
      ShownTrimmed(pairs[0].value);
      assert l[..3][0] == ' ';
      assert l[|l| - 1] == v[|v| - 1];
      PairLinesFront(pairs[1..]);
      assert AllFront([l]);
      AllFrontConcat([l], PairLines(pairs[1..]));
    }
  }

  lemma NodeLinesFront(e: Entry)
    requires GoodEntry(e)
    ensures AllFront(NodeLines(e))
  {
    hide GoodScalar, GoodKey, FrontLine, StartsWith, IsTrimmed, Shown;
    if e.node.Leaf? {
      ShownTrimmed(e.node.value);
      ShownSome(e.node.value);
      HeadIsFront(e, Shown(e.node.value));
    } else {
      HeadIsFront(e, []);
      if e.node.Items? {
        ItemLinesFront(e.node.items);
        AllFrontConcat([e.key + ":"], ItemLines(e.node.items));
      } else {
        PairLinesFront(e.node.pairs);
        AllFrontConcat([e.key + ":"], PairLines(e.node.pairs));
      }
    }
  }

  lemma ShownSome(s: Scalar)
    requires GoodScalar(s)
    ensures Shown(s) != []
  {
  }

  lemma {:induction false} FrontLinesFront(entries: seq<Entry>)
    requires forall k :: 0 <= k < |entries| ==> GoodEntry(entries[k])
    ensures AllFront(FrontLines(entries))
  {
    hide GoodEntry, NodeLines, FrontLine;
    if entries != [] {
      NodeLinesFront(entries[0]);
      FrontLinesFront(entries[1..]);
      AllFrontConcat(NodeLines(entries[0]), FrontLines(entries[1..]));
    }
  }
}
